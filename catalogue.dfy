/**
 * The model catalogue of autosegment.py: the thirty task lists `TaskNNN_... = sorted([...])`
 * and the chain of fifteen `if` statements that compares the available sequences against them
 * and assigns `tissue_class_model`, `abnormality_model` and `revised_filenames`.
 * Each branch of the chain is one `Branch` value, kept in the order the chain tests them.
 */
module Catalogue {
  import opened Wrappers
  import opened Strings
  import opened MriSequences

  /**
   * One `if` of the chain: the task list of the tissue model and that of the abnormality
   * model (both as written, before `sorted`), the task numbers of the two model identifiers
   * the branch assigns, and the dictionary it assigns to `revised_filenames`.
   */
  datatype Branch = Branch(
    tissueSeqs: seq<Seq>,
    abnormalitySeqs: seq<Seq>,
    tissueTask: nat,
    abnormalityTask: nat,
    revisedFilenames: map<string, string>)

  /** The chain, in the order its `if` statements appear. */
  function Chain(): seq<Branch> {
    [
      Branch([FLAIR], [FLAIR], 890, 894,
        map[FileName(FLAIR) := Position(0)]),
      Branch([T1], [T1], 891, 895,
        map[FileName(T1) := Position(0)]),
      Branch([T1CE], [T1CE], 893, 897,
        map[FileName(T1CE) := Position(0)]),
      Branch([T2], [T2], 892, 896,
        map[FileName(T2) := Position(0)]),
      Branch([FLAIR, T1], [FLAIR, T1], 898, 908,
        map[FileName(FLAIR) := Position(0), FileName(T1) := Position(1)]),
      Branch([FLAIR, T2], [FLAIR, T2], 899, 909,
        map[FileName(FLAIR) := Position(0), FileName(T2) := Position(1)]),
      Branch([FLAIR, T1CE], [FLAIR, T1CE], 900, 910,
        map[FileName(FLAIR) := Position(0), FileName(T1CE) := Position(1)]),
      Branch([T1, T2], [T1, T2], 901, 911,
        map[FileName(T1) := Position(0), FileName(T2) := Position(1)]),
      Branch([T1, T1CE], [T1, T1CE], 902, 912,
        map[FileName(T1) := Position(0), FileName(T1CE) := Position(1)]),
      Branch([T2, T1CE], [T2, T1CE], 903, 913,
        map[FileName(T1CE) := Position(0), FileName(T2) := Position(1)]),
      Branch([FLAIR, T1, T2], [FLAIR, T1, T2], 904, 914,
        map[FileName(FLAIR) := Position(0), FileName(T1) := Position(1),
            FileName(T2) := Position(2)]),
      Branch([FLAIR, T1, T1CE], [FLAIR, T1, T1CE], 905, 915,
        map[FileName(FLAIR) := Position(0), FileName(T1) := Position(1),
            FileName(T1CE) := Position(2)]),
      Branch([FLAIR, T2, T1CE], [FLAIR, T2, T1CE], 906, 916,
        map[FileName(FLAIR) := Position(0), FileName(T1CE) := Position(1),
            FileName(T2) := Position(2)]),
      Branch([T1, T2, T1CE], [T1, T2, T1CE], 907, 917,
        map[FileName(T1) := Position(0), FileName(T1CE) := Position(1),
            FileName(T2) := Position(2)]),
      Branch([FLAIR, T1, T2, T1CE], [FLAIR, T1, T2, T1CE], 918, 919,
        map[FileName(FLAIR) := Position(0), FileName(T1) := Position(1),
            FileName(T1CE) := Position(2), FileName(T2) := Position(3)])
    ]
  }

  /** The label that ends the model identifier of a task, as the script spells it. */
  function TaskLabel(task: nat): string {
    match task
    case 890 => "Flair"
    case 891 => "T1"
    case 892 => "T2"
    case 893 => "T1CE"
    case 894 => "FlairAbnormality"
    case 895 => "T1Abnormality"
    case 896 => "T2Abnormality"
    case 897 => "T1CEAbnormality"
    case 898 => "FlairT1"
    case 899 => "FlairT2"
    case 900 => "FlairT1CE"
    case 901 => "T1T2"
    case 902 => "T1T1CE"
    case 903 => "T2T1CE"
    case 904 => "FlairT1T2"
    case 905 => "FlairT1T1CE"
    case 906 => "FlairT2T1CE"
    case 907 => "T1T2T1CE"
    case 908 => "FlairT1Abnormality"
    case 909 => "FlairT2Abnormality"
    case 910 => "FlairT1CEAbnormality"
    case 911 => "T1T2Abnormality"
    case 912 => "T1T1CEAbnormality"
    case 913 => "T2T1CEAbnormality"
    case 914 => "FlairT1T2Abnormality"
    case 915 => "FlairT1T1CEAbnormality"
    case 916 => "FlairT2T1CEAbnormality"
    case 917 => "T1T2T1CEAbnormality"
    case 918 => "allseq_bratsonly"
    case 919 => "allseq_bratsonly_abnormality"
    case _ => ""
  }

  /** The three decimal digits of a task number between 100 and 999. */
  function Digits(n: nat): (r: string)
    requires 100 <= n < 1000
    ensures |r| == 3
  {
    [(48 + n / 100) as char, (48 + n / 10 % 10) as char, (48 + n % 10) as char]
  }

  /** The model identifier the branch assigns: `TaskNNN_BrainTumour2021_<label>`. */
  function ModelName(task: nat): string
    requires 100 <= task < 1000
  {
    "Task" + Digits(task) + "_BrainTumour2021_" + TaskLabel(task)
  }

  /** Different task numbers give different model identifiers. */
  lemma ModelNameInjective(a: nat, b: nat)
    requires 100 <= a < 1000 && 100 <= b < 1000
    requires ModelName(a) == ModelName(b)
    ensures a == b
  {
    ModelNameDigits(a);
    ModelNameDigits(b);
    DigitsInjective(a, b);
  }

  lemma ModelNameDigits(task: nat)
    requires 100 <= task < 1000
    ensures ModelName(task)[4..7] == Digits(task)
  {
    var head := "Task" + Digits(task);
    assert ModelName(task) == head + ("_BrainTumour2021_" + TaskLabel(task));
    assert head[4..7] == Digits(task);
  }

  lemma DigitsInjective(a: nat, b: nat)
    requires 100 <= a < 1000 && 100 <= b < 1000 && Digits(a) == Digits(b)
    ensures a == b
  {
    assert Digits(a)[0] == Digits(b)[0] && Digits(a)[1] == Digits(b)[1] && Digits(a)[2] == Digits(b)[2];
    DigitsValue(a);
    DigitsValue(b);
  }

  /** The three digits of `n` are its hundreds, tens and units. */
  lemma DigitsValue(n: nat)
    requires 100 <= n < 1000
    ensures n == 100 * (n / 100) + 10 * (n / 10 % 10) + n % 10
  {
    var q := n / 10;
    assert n == 10 * q + n % 10;
    assert q == 10 * (q / 10) + q % 10;
    assert q / 10 == n / 100;
  }

  /** A task list after `sorted`: the value the chain compares against. */
  function TaskKey(list: seq<Seq>): seq<string> {
    Sort(Spelled(list, ""))
  }

  /** The condition of a branch: `available == tissue list and available == abnormality list`. */
  predicate Fires(b: Branch, available: seq<string>) {
    available == TaskKey(b.tissueSeqs) && available == TaskKey(b.abnormalitySeqs)
  }

  /** The sequence types a branch is for. */
  function SeqSet(b: Branch): set<Seq> {
    set s | s in b.tissueSeqs
  }

  /** The file a sequence type is stored in: `SEQ.nii.gz`. */
  function FileName(s: Seq): string {
    Spell(s, ".nii.gz")
  }

  /** The positional name the external tool expects for input channel `k`: `image_000k.nii.gz`. */
  function Position(k: nat): string
    requires k < 10
  {
    "image_000" + [(48 + k) as char] + ".nii.gz"
  }

  lemma PositionInjective(j: nat, k: nat)
    requires j < 10 && k < 10 && Position(j) == Position(k)
    ensures j == k
  {
    assert Position(j)[9] == (48 + j) as char;
    assert Position(k)[9] == (48 + k) as char;
  }

  /**
   * The reference remap for types listed in the order `ps`: the file of the `k`-th type is
   * renamed to the `k`-th positional name.
   */
  function PositionalRemap(ps: seq<Seq>): (r: map<string, string>)
    requires |ps| <= 10
    decreases |ps|
  {
    if ps == [] then map[]
    else PositionalRemap(ps[..|ps| - 1])[FileName(ps[|ps| - 1]) := Position(|ps| - 1)]
  }

  /** The reference remap renames exactly the files of the listed types. */
  lemma {:induction false} PositionalRemapKeys(ps: seq<Seq>, f: string)
    requires |ps| <= 10
    ensures f in PositionalRemap(ps) <==> exists s :: s in ps && f == FileName(s)
    decreases |ps|
  {
    if ps != [] {
      var n := |ps| - 1;
      PositionalRemapKeys(ps[..n], f);
      assert forall s :: s in ps <==> s in ps[..n] || s == ps[n] by {
        assert ps == ps[..n] + [ps[n]];
      }
    }
  }

  /** The reference remap sends the file of the `k`-th listed type to position `k`. */
  lemma {:induction false} PositionalRemapAt(ps: seq<Seq>, k: nat)
    requires |ps| <= 10 && Distinct(ps) && k < |ps|
    ensures FileName(ps[k]) in PositionalRemap(ps)
    ensures PositionalRemap(ps)[FileName(ps[k])] == Position(k)
    decreases |ps|
  {
    var n := |ps| - 1;
    if k < n {
      var init := ps[..n];
      assert Distinct(init);
      assert init[k] in init;
      PositionalRemapKeys(init, FileName(ps[k]));
      assert init[k] == ps[k];
      PositionalRemapAt(init, k);
      assert ps[k] != ps[n];
      if FileName(ps[k]) == FileName(ps[n]) {
        SpellInjective(ps[k], ps[n], ".nii.gz");
      }
    }
  }

  /** No two files are renamed to the same positional name. */
  lemma {:induction false} PositionalRemapInjective(ps: seq<Seq>, f: string, g: string)
    requires |ps| <= 10
    requires f in PositionalRemap(ps) && g in PositionalRemap(ps) && f != g
    ensures PositionalRemap(ps)[f] != PositionalRemap(ps)[g]
    decreases |ps|
  {
    var n := |ps| - 1;
    var init := ps[..n];
    var r := PositionalRemap(ps);
    PositionalRemapValue(init, f);
    PositionalRemapValue(init, g);
    if f != FileName(ps[n]) && g != FileName(ps[n]) {
      PositionalRemapInjective(init, f, g);
    } else if f == FileName(ps[n]) {
      var j :| 0 <= j < n && PositionalRemap(init)[g] == Position(j);
      if Position(j) == Position(n) { PositionInjective(j, n); }
    } else {
      var j :| 0 <= j < n && PositionalRemap(init)[f] == Position(j);
      if Position(j) == Position(n) { PositionInjective(j, n); }
    }
  }

  lemma {:induction false} PositionalRemapValue(ps: seq<Seq>, f: string)
    requires |ps| <= 10
    ensures f in PositionalRemap(ps) ==> exists j :: 0 <= j < |ps| && PositionalRemap(ps)[f] == Position(j)
    decreases |ps|
  {
    if ps != [] {
      PositionalRemapValue(ps[..|ps| - 1], f);
    }
  }

  /**
   * The shape every branch has: a non-empty set of types, whose sorted tissue list and sorted
   * abnormality list are both the rank-ordered names of that set (so the `and` in the
   * condition is redundant), whose remap is the positional one, and whose two model
   * identifiers are for different tasks.
   */
  ghost predicate Shape(b: Branch) {
    && SeqSet(b) != {}
    && TaskKey(b.tissueSeqs) == RankedNames(SeqSet(b))
    && TaskKey(b.abnormalitySeqs) == TaskKey(b.tissueSeqs)
    && b.revisedFilenames == PositionalRemap(RankOrder(SeqSet(b)))
    && 100 <= b.tissueTask < 1000 && 100 <= b.abnormalityTask < 1000
    && b.tissueTask != b.abnormalityTask
  }

  /** `sorted` on a task list without repetitions gives the rank-ordered names of its types. */
  lemma TaskKeyRanked(list: seq<Seq>)
    requires Distinct(list)
    ensures TaskKey(list) == RankedNames(set s | s in list)
  {
    var xs := Spelled(list, "");
    SpelledDistinct(list, "");
    SpelledAreSpellings(list, "");
    SortSpellings(xs, "");
    PresentSpelled(list, "");
  }

  /** The file names and positional names the remap literals spell out. */
  lemma Literals()
    ensures FileName(FLAIR) == "FLAIR.nii.gz" && FileName(T1) == "T1.nii.gz"
    ensures FileName(T1CE) == "T1CE.nii.gz" && FileName(T2) == "T2.nii.gz"
    ensures Position(0) == "image_0000.nii.gz" && Position(1) == "image_0001.nii.gz"
    ensures Position(2) == "image_0002.nii.gz" && Position(3) == "image_0003.nii.gz"
  {
  }

  lemma RemapUnfolded(ps: seq<Seq>)
    requires 1 <= |ps| <= 4
    ensures |ps| == 1 ==> PositionalRemap(ps) == map[FileName(ps[0]) := Position(0)]
    ensures |ps| == 2 ==>
      PositionalRemap(ps) == map[FileName(ps[0]) := Position(0), FileName(ps[1]) := Position(1)]
    ensures |ps| == 3 ==>
      PositionalRemap(ps) == map[FileName(ps[0]) := Position(0), FileName(ps[1]) := Position(1),
                                 FileName(ps[2]) := Position(2)]
    ensures |ps| == 4 ==>
      PositionalRemap(ps) == map[FileName(ps[0]) := Position(0), FileName(ps[1]) := Position(1),
                                 FileName(ps[2]) := Position(2), FileName(ps[3]) := Position(3)]
  {
    var n := |ps|;
    assert ps[..1][..0] == [];
    if n >= 2 { assert ps[..2][..1] == ps[..1]; }
    if n >= 3 { assert ps[..3][..2] == ps[..2]; }
    if n == 4 { assert ps[..4] == ps; }
    if n == 3 { assert ps[..3] == ps; }
    if n == 2 { assert ps[..2] == ps; }
  }

  lemma ShapeFrom(b: Branch, ps: seq<Seq>)
    requires Distinct(b.tissueSeqs) && b.abnormalitySeqs == b.tissueSeqs && b.tissueSeqs != []
    requires |ps| <= 4 && RankIncreasing(ps) && forall s :: s in b.tissueSeqs <==> s in ps
    requires b.revisedFilenames == PositionalRemap(ps)
    requires 100 <= b.tissueTask < 1000 && 100 <= b.abnormalityTask < 1000
    requires b.tissueTask != b.abnormalityTask
    ensures Shape(b)
  {
    TaskKeyRanked(b.tissueSeqs);
    assert b.tissueSeqs[0] in SeqSet(b);
    RankIncreasingUnique(RankOrder(SeqSet(b)), ps);
  }

  /** Every branch of the chain has the common shape. */
  lemma BranchShape(i: nat)
    requires i < |Chain()|
    ensures Shape(Chain()[i])
  {
    if i == 0 {
      Shape0();
    } else if i == 1 {
      Shape1();
    } else if i == 2 {
      Shape2();
    } else if i == 3 {
      Shape3();
    } else if i == 4 {
      Shape4();
    } else if i == 5 {
      Shape5();
    } else if i == 6 {
      Shape6();
    } else if i == 7 {
      Shape7();
    } else if i == 8 {
      Shape8();
    } else if i == 9 {
      Shape9();
    } else if i == 10 {
      Shape10();
    } else if i == 11 {
      Shape11();
    } else if i == 12 {
      Shape12();
    } else if i == 13 {
      Shape13();
    } else {
      Shape14();
    }
  }

  /** Branch 0 of the chain: rank order [FLAIR]. */
  lemma Shape0()
    ensures Shape(Chain()[0])
  {
    var b := Chain()[0];
    RemapUnfolded([FLAIR]);
    assert Distinct(b.tissueSeqs) && RankIncreasing([FLAIR]);
    assert forall s :: s in b.tissueSeqs <==> s in [FLAIR];
    ShapeFrom(b, [FLAIR]);
  }

  /** Branch 1 of the chain: rank order [T1]. */
  lemma Shape1()
    ensures Shape(Chain()[1])
  {
    var b := Chain()[1];
    RemapUnfolded([T1]);
    assert Distinct(b.tissueSeqs) && RankIncreasing([T1]);
    assert forall s :: s in b.tissueSeqs <==> s in [T1];
    ShapeFrom(b, [T1]);
  }

  /** Branch 2 of the chain: rank order [T1CE]. */
  lemma Shape2()
    ensures Shape(Chain()[2])
  {
    var b := Chain()[2];
    RemapUnfolded([T1CE]);
    assert Distinct(b.tissueSeqs) && RankIncreasing([T1CE]);
    assert forall s :: s in b.tissueSeqs <==> s in [T1CE];
    ShapeFrom(b, [T1CE]);
  }

  /** Branch 3 of the chain: rank order [T2]. */
  lemma Shape3()
    ensures Shape(Chain()[3])
  {
    var b := Chain()[3];
    RemapUnfolded([T2]);
    assert Distinct(b.tissueSeqs) && RankIncreasing([T2]);
    assert forall s :: s in b.tissueSeqs <==> s in [T2];
    ShapeFrom(b, [T2]);
  }

  /** Branch 4 of the chain: rank order [FLAIR, T1]. */
  lemma Shape4()
    ensures Shape(Chain()[4])
  {
    var b := Chain()[4];
    RemapUnfolded([FLAIR, T1]);
    assert Distinct(b.tissueSeqs) && RankIncreasing([FLAIR, T1]);
    assert forall s :: s in b.tissueSeqs <==> s in [FLAIR, T1];
    ShapeFrom(b, [FLAIR, T1]);
  }

  /** Branch 5 of the chain: rank order [FLAIR, T2]. */
  lemma Shape5()
    ensures Shape(Chain()[5])
  {
    var b := Chain()[5];
    RemapUnfolded([FLAIR, T2]);
    assert Distinct(b.tissueSeqs) && RankIncreasing([FLAIR, T2]);
    assert forall s :: s in b.tissueSeqs <==> s in [FLAIR, T2];
    ShapeFrom(b, [FLAIR, T2]);
  }

  /** Branch 6 of the chain: rank order [FLAIR, T1CE]. */
  lemma Shape6()
    ensures Shape(Chain()[6])
  {
    var b := Chain()[6];
    RemapUnfolded([FLAIR, T1CE]);
    assert Distinct(b.tissueSeqs) && RankIncreasing([FLAIR, T1CE]);
    assert forall s :: s in b.tissueSeqs <==> s in [FLAIR, T1CE];
    ShapeFrom(b, [FLAIR, T1CE]);
  }

  /** Branch 7 of the chain: rank order [T1, T2]. */
  lemma Shape7()
    ensures Shape(Chain()[7])
  {
    var b := Chain()[7];
    RemapUnfolded([T1, T2]);
    assert Distinct(b.tissueSeqs) && RankIncreasing([T1, T2]);
    assert forall s :: s in b.tissueSeqs <==> s in [T1, T2];
    ShapeFrom(b, [T1, T2]);
  }

  /** Branch 8 of the chain: rank order [T1, T1CE]. */
  lemma Shape8()
    ensures Shape(Chain()[8])
  {
    var b := Chain()[8];
    RemapUnfolded([T1, T1CE]);
    assert Distinct(b.tissueSeqs) && RankIncreasing([T1, T1CE]);
    assert forall s :: s in b.tissueSeqs <==> s in [T1, T1CE];
    ShapeFrom(b, [T1, T1CE]);
  }

  /** Branch 9 of the chain: rank order [T1CE, T2]. */
  lemma Shape9()
    ensures Shape(Chain()[9])
  {
    var b := Chain()[9];
    RemapUnfolded([T1CE, T2]);
    assert Distinct(b.tissueSeqs) && RankIncreasing([T1CE, T2]);
    assert forall s :: s in b.tissueSeqs <==> s in [T1CE, T2];
    ShapeFrom(b, [T1CE, T2]);
  }

  /** Branch 10 of the chain: rank order [FLAIR, T1, T2]. */
  lemma Shape10()
    ensures Shape(Chain()[10])
  {
    var b := Chain()[10];
    RemapUnfolded([FLAIR, T1, T2]);
    assert Distinct(b.tissueSeqs) && RankIncreasing([FLAIR, T1, T2]);
    assert forall s :: s in b.tissueSeqs <==> s in [FLAIR, T1, T2];
    ShapeFrom(b, [FLAIR, T1, T2]);
  }

  /** Branch 11 of the chain: rank order [FLAIR, T1, T1CE]. */
  lemma Shape11()
    ensures Shape(Chain()[11])
  {
    var b := Chain()[11];
    RemapUnfolded([FLAIR, T1, T1CE]);
    assert Distinct(b.tissueSeqs) && RankIncreasing([FLAIR, T1, T1CE]);
    assert forall s :: s in b.tissueSeqs <==> s in [FLAIR, T1, T1CE];
    ShapeFrom(b, [FLAIR, T1, T1CE]);
  }

  /** Branch 12 of the chain: rank order [FLAIR, T1CE, T2]. */
  lemma Shape12()
    ensures Shape(Chain()[12])
  {
    var b := Chain()[12];
    RemapUnfolded([FLAIR, T1CE, T2]);
    assert Distinct(b.tissueSeqs) && RankIncreasing([FLAIR, T1CE, T2]);
    assert forall s :: s in b.tissueSeqs <==> s in [FLAIR, T1CE, T2];
    ShapeFrom(b, [FLAIR, T1CE, T2]);
  }

  /** Branch 13 of the chain: rank order [T1, T1CE, T2]. */
  lemma Shape13()
    ensures Shape(Chain()[13])
  {
    var b := Chain()[13];
    RemapUnfolded([T1, T1CE, T2]);
    assert Distinct(b.tissueSeqs) && RankIncreasing([T1, T1CE, T2]);
    assert forall s :: s in b.tissueSeqs <==> s in [T1, T1CE, T2];
    ShapeFrom(b, [T1, T1CE, T2]);
  }

  /** Branch 14 of the chain: rank order [FLAIR, T1, T1CE, T2]. */
  lemma Shape14()
    ensures Shape(Chain()[14])
  {
    var b := Chain()[14];
    RemapUnfolded([FLAIR, T1, T1CE, T2]);
    assert Distinct(b.tissueSeqs) && RankIncreasing([FLAIR, T1, T1CE, T2]);
    assert forall s :: s in b.tissueSeqs <==> s in [FLAIR, T1, T1CE, T2];
    ShapeFrom(b, [FLAIR, T1, T1CE, T2]);
  }

  /**
   * The index of the branch for a set of types, read off which of the four types it holds:
   * the chain tests the one-type sets, then the pairs, then the triples, then all four.
   */
  function SlotOf(f: bool, t1: bool, ce: bool, t2: bool): nat {
    match (f, t1, ce, t2)
    case (true, false, false, false) => 0
    case (false, true, false, false) => 1
    case (false, false, true, false) => 2
    case (false, false, false, true) => 3
    case (true, true, false, false) => 4
    case (true, false, false, true) => 5
    case (true, false, true, false) => 6
    case (false, true, false, true) => 7
    case (false, true, true, false) => 8
    case (false, false, true, true) => 9
    case (true, true, false, true) => 10
    case (true, true, true, false) => 11
    case (true, false, true, true) => 12
    case (false, true, true, true) => 13
    case (true, true, true, true) => 14
    case (false, false, false, false) => 15
  }

  ghost function Slot(S: set<Seq>): nat {
    SlotOf(FLAIR in S, T1 in S, T1CE in S, T2 in S)
  }

  /** The branch at the slot of a membership pattern lists exactly the types of the pattern. */
  lemma SlotMembers(f: bool, t1: bool, ce: bool, t2: bool)
    requires f || t1 || ce || t2
    ensures SlotOf(f, t1, ce, t2) < |Chain()|
    ensures var b := Chain()[SlotOf(f, t1, ce, t2)];
      && (FLAIR in b.tissueSeqs <==> f) && (T1 in b.tissueSeqs <==> t1)
      && (T1CE in b.tissueSeqs <==> ce) && (T2 in b.tissueSeqs <==> t2)
  {
  }

  /** Every non-empty set of types is the set of the branch at its slot. */
  lemma SlotCovers(S: set<Seq>)
    requires S != {}
    ensures Slot(S) < |Chain()| && SeqSet(Chain()[Slot(S)]) == S
  {
    var x :| x in S;
    assert FLAIR in S || T1 in S || T1CE in S || T2 in S by {
      match x
      case FLAIR =>
      case T1 =>
      case T1CE =>
      case T2 =>
    }
    SlotMembers(FLAIR in S, T1 in S, T1CE in S, T2 in S);
    var b := Chain()[Slot(S)];
    forall s ensures s in SeqSet(b) <==> s in S {
      match s
      case FLAIR =>
      case T1 =>
      case T1CE =>
      case T2 =>
    }
  }

  /** Each branch sits at the slot of its own set of types. */
  lemma SlotOfBranch(i: nat)
    requires i < |Chain()|
    ensures Slot(SeqSet(Chain()[i])) == i
  {
    var b := Chain()[i];
    assert FLAIR in SeqSet(b) <==> FLAIR in b.tissueSeqs;
    assert T1 in SeqSet(b) <==> T1 in b.tissueSeqs;
    assert T1CE in SeqSet(b) <==> T1CE in b.tissueSeqs;
    assert T2 in SeqSet(b) <==> T2 in b.tissueSeqs;
  }

  /** Different branches of the chain are for different sets of types. */
  lemma SeqSetsDistinct(i: nat, j: nat)
    requires i < |Chain()| && j < |Chain()| && i != j
    ensures SeqSet(Chain()[i]) != SeqSet(Chain()[j])
  {
    SlotOfBranch(i);
    SlotOfBranch(j);
  }

  /** A branch fires exactly on the rank-ordered names of its types. */
  lemma FiresExactly(i: nat, available: seq<string>)
    requires i < |Chain()|
    ensures Fires(Chain()[i], available) <==> available == RankedNames(SeqSet(Chain()[i]))
  {
    BranchShape(i);
  }

  /** At most one branch of the chain fires on any list of names. */
  lemma AtMostOneFires(available: seq<string>, i: nat, j: nat)
    requires i < |Chain()| && j < |Chain()|
    requires Fires(Chain()[i], available) && Fires(Chain()[j], available)
    ensures i == j
  {
    FiresExactly(i, available);
    FiresExactly(j, available);
    if i != j {
      RankedNamesInjective(SeqSet(Chain()[i]), SeqSet(Chain()[j]));
      SeqSetsDistinct(i, j);
    }
  }

  /** The first branch at index `k` or later that fires, if any. */
  function FirstFiring(available: seq<string>, k: nat): (r: Option<nat>)
    requires k <= |Chain()|
    ensures r.Some? ==> k <= r.value < |Chain()| && Fires(Chain()[r.value], available)
    ensures forall j :: k <= j < |Chain()| && (r.None? || j < r.value) ==> !Fires(Chain()[j], available)
    decreases |Chain()| - k
  {
    if k == |Chain()| then None
    else if Fires(Chain()[k], available) then Some(k)
    else FirstFiring(available, k + 1)
  }

  /** The chain as a table lookup: the index of the branch that fires on `available`. */
  function Lookup(available: seq<string>): (r: Option<nat>)
    ensures r.Some? ==> r.value < |Chain()| && Fires(Chain()[r.value], available)
    ensures r.None? <==> forall j :: 0 <= j < |Chain()| ==> !Fires(Chain()[j], available)
  {
    FirstFiring(available, 0)
  }

  /** The branch the chain selects for `available`, if any. */
  function Resolve(available: seq<string>): (r: Option<Branch>)
    ensures r.Some? ==> r.value in Chain() && Fires(r.value, available)
    ensures r.None? ==> forall b :: b in Chain() ==> !Fires(b, available)
  {
    match Lookup(available)
    case Some(i) => Some(Chain()[i])
    case None => None
  }

  /** The branch that fires is the only one that does. */
  lemma LookupUnique(available: seq<string>, i: nat)
    requires i < |Chain()| && Fires(Chain()[i], available)
    ensures Lookup(available) == Some(i)
  {
    var r := Lookup(available);
    AtMostOneFires(available, r.value, i);
  }

  /**
   * What a run of independent `if` statements over the first `k` branches leaves selected: the
   * last of them that fires, if any.
   */
  function LastFiring(available: seq<string>, k: nat): (r: Option<nat>)
    requires k <= |Chain()|
    ensures r.Some? ==> r.value < k && Fires(Chain()[r.value], available)
  {
    if k == 0 then None
    else if Fires(Chain()[k - 1], available) then Some(k - 1)
    else LastFiring(available, k - 1)
  }

  /** Branch `k` fires exactly when it is the branch the lookup selects. */
  lemma LookupAt(available: seq<string>, k: nat)
    requires k < |Chain()|
    ensures Fires(Chain()[k], available) <==> Lookup(available) == Some(k)
  {
    if Fires(Chain()[k], available) {
      LookupUnique(available, k);
    }
  }

  /** One more test of the chain keeps the last firing branch equal to the lookup's choice. */
  lemma LastFiringStep(t: Option<nat>, k: nat, fires: bool, prev: Option<nat>)
    requires k > 0 && (fires <==> t == Some(k - 1))
    requires prev == (if t.Some? && t.value < k - 1 then t else None)
    ensures (if fires then Some(k - 1) else prev) == (if t.Some? && t.value < k then t else None)
  {
  }

  /** Since at most one branch fires, the last one to fire is the one the lookup selects. */
  lemma {:induction false} LastFiringIsLookup(available: seq<string>, k: nat)
    requires k <= |Chain()|
    ensures LastFiring(available, k) ==
      (if Lookup(available).Some? && Lookup(available).value < k then Lookup(available) else None)
  {
    if k > 0 {
      LastFiringIsLookup(available, k - 1);
      LookupAt(available, k - 1);
      LastFiringStep(Lookup(available), k, Fires(Chain()[k - 1], available), LastFiring(available, k - 1));
    }
  }

  /**
   * Every non-empty set of types has its branch: on the rank-ordered names of the set the
   * chain selects the branch listing exactly that set.
   */
  lemma ResolveComplete(S: set<Seq>)
    requires S != {}
    ensures Lookup(RankedNames(S)) == Some(Slot(S))
    ensures Resolve(RankedNames(S)).Some? && SeqSet(Resolve(RankedNames(S)).value) == S
  {
    SlotCovers(S);
    FiresExactly(Slot(S), RankedNames(S));
    LookupUnique(RankedNames(S), Slot(S));
  }

  /** Whatever the chain selects, it selected because the names were those of its set. */
  lemma ResolveSound(available: seq<string>)
    requires Resolve(available).Some?
    ensures var b := Resolve(available).value;
      && Shape(b) && available == RankedNames(SeqSet(b))
  {
    var i := Lookup(available).value;
    FiresExactly(i, available);
    BranchShape(i);
  }

  /** The chain selects nothing exactly when the names are not those of any non-empty set. */
  lemma ResolveNone(available: seq<string>)
    ensures Resolve(available).None? <==> forall S: set<Seq> :: S != {} ==> available != RankedNames(S)
  {
    if Resolve(available).Some? {
      ResolveSound(available);
    }
    forall S: set<Seq> | S != {} && available == RankedNames(S)
      ensures Resolve(available).Some?
    {
      ResolveComplete(S);
    }
  }

  /** The remap of a branch renames exactly the files `SEQ.nii.gz` of the branch's types. */
  lemma RemapDomain(i: nat, f: string)
    requires i < |Chain()|
    ensures f in Chain()[i].revisedFilenames <==> exists s :: s in SeqSet(Chain()[i]) && f == FileName(s)
  {
    BranchShape(i);
    PositionalRemapKeys(RankOrder(SeqSet(Chain()[i])), f);
  }

  /**
   * The remap of a branch sends the file of the `k`-th name of the sorted list of its types
   * to the `k`-th positional name `image_000k.nii.gz`.
   */
  lemma RemapPositions(i: nat)
    requires i < |Chain()|
    ensures var b := Chain()[i]; var names := RankedNames(SeqSet(b));
      forall k :: 0 <= k < |names| ==>
        && names[k] + ".nii.gz" in b.revisedFilenames
        && b.revisedFilenames[names[k] + ".nii.gz"] == Position(k)
  {
    BranchShape(i);
    PositionalNames(SeqSet(Chain()[i]));
  }

  lemma PositionalNames(S: set<Seq>)
    ensures var names := RankedNames(S); var remap := PositionalRemap(RankOrder(S));
      forall k :: 0 <= k < |names| ==>
        names[k] + ".nii.gz" in remap && remap[names[k] + ".nii.gz"] == Position(k)
  {
    var ps := RankOrder(S);
    assert Distinct(ps) by {
      forall j, k | 0 <= j < k < |ps| ensures ps[j] != ps[k] {
        assert Rank(ps[j]) < Rank(ps[k]);
      }
    }
    forall k | 0 <= k < |ps|
      ensures RankedNames(S)[k] + ".nii.gz" in PositionalRemap(ps)
      ensures PositionalRemap(ps)[RankedNames(S)[k] + ".nii.gz"] == Position(k)
    {
      PositionalNameAt(ps, k);
    }
  }

  lemma PositionalNameAt(ps: seq<Seq>, k: nat)
    requires |ps| <= 10 && Distinct(ps) && k < |ps|
    ensures Spelled(ps, "")[k] + ".nii.gz" in PositionalRemap(ps)
    ensures PositionalRemap(ps)[Spelled(ps, "")[k] + ".nii.gz"] == Position(k)
  {
    var name := Spelled(ps, "")[k];
    assert name == Name(ps[k]) + "";
    assert Name(ps[k]) + "" == Name(ps[k]);
    assert name + ".nii.gz" == FileName(ps[k]);
    PositionalRemapAt(ps, k);
  }

  /** No two files of a branch's remap get the same positional name. */
  lemma RemapInjective(i: nat, f: string, g: string)
    requires i < |Chain()|
    requires f in Chain()[i].revisedFilenames && g in Chain()[i].revisedFilenames && f != g
    ensures Chain()[i].revisedFilenames[f] != Chain()[i].revisedFilenames[g]
  {
    BranchShape(i);
    PositionalRemapInjective(RankOrder(SeqSet(Chain()[i])), f, g);
  }

  /** The two model identifiers of a branch are different, and so are those of different branches. */
  lemma TasksDistinct(i: nat, j: nat)
    requires i < |Chain()| && j < |Chain()|
    ensures Chain()[i].tissueTask != Chain()[j].abnormalityTask
    ensures i != j ==> Chain()[i].tissueTask != Chain()[j].tissueTask
    ensures i != j ==> Chain()[i].abnormalityTask != Chain()[j].abnormalityTask
  {
  }

  /** The `tissue_class_model` identifier that branch `i` assigns. */
  function TissueModel(i: nat): string
    requires i < |Chain()|
  {
    BranchShape(i);
    ModelName(Chain()[i].tissueTask)
  }

  /** The `abnormality_model` identifier that branch `i` assigns. */
  function AbnormalityModel(i: nat): string
    requires i < |Chain()|
  {
    BranchShape(i);
    ModelName(Chain()[i].abnormalityTask)
  }

  /**
   * No model identifier is used for both tasks, and no two branches assign the same identifier
   * to the same task: each identifier names exactly one (task, sequence set) pair.
   */
  lemma ModelsDistinct(i: nat, j: nat)
    requires i < |Chain()| && j < |Chain()|
    ensures TissueModel(i) != AbnormalityModel(j)
    ensures i != j ==> TissueModel(i) != TissueModel(j) && AbnormalityModel(i) != AbnormalityModel(j)
  {
    BranchShape(i);
    BranchShape(j);
    TasksDistinct(i, j);
    if TissueModel(i) == AbnormalityModel(j) {
      ModelNameInjective(Chain()[i].tissueTask, Chain()[j].abnormalityTask);
    }
    if i != j {
      if TissueModel(i) == TissueModel(j) {
        ModelNameInjective(Chain()[i].tissueTask, Chain()[j].tissueTask);
      }
      if AbnormalityModel(i) == AbnormalityModel(j) {
        ModelNameInjective(Chain()[i].abnormalityTask, Chain()[j].abnormalityTask);
      }
    }
  }

  /** The chain only ever fires on a strictly sorted list of names. */
  lemma ResolvedSorted(available: seq<string>)
    requires Resolve(available).Some?
    ensures StrictlySorted(available)
  {
    ResolveSound(available);
    RankedSpellingsStrictlySorted(RankOrder(SeqSet(Resolve(available).value)), "");
  }
}
