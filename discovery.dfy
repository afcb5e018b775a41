/**
 * How autosegment.py turns the `*gz` files of a patient directory into the list of available
 * sequence names (autosegment.py:113-122): sort the paths, drop those containing `mask`, take
 * the last `/` component of each, sort those, and strip `.nii.gz` and then `image_`.
 */
module Discovery {
  import opened Strings
  import opened MriSequences

  /** The directory the script searches for a patient: `inpath + patient_id + '/'`. */
  function PatientDir(inpath: string, pid: string): (r: string)
    ensures |r| > 0 && r[|r| - 1] == '/'
  {
    inpath + pid + "/"
  }

  /** The paths `glob` reports for the matched directory entries `entries`, in the order given. */
  function GlobPaths(dir: string, entries: seq<string>): (r: seq<string>)
    ensures |r| == |entries|
    ensures forall i :: 0 <= i < |r| ==> r[i] == dir + entries[i]
  {
    seq(|entries|, i requires 0 <= i < |entries| => dir + entries[i])
  }

  /** The list comprehension that keeps the paths in which `mask` does not occur, in order. */
  function DropMasks(paths: seq<string>): (r: seq<string>)
    ensures forall p :: p in r <==> p in paths && !Contains(p, "mask")
    ensures |r| <= |paths|
  {
    if paths == [] then []
    else
      assert forall p :: p in paths <==> p == paths[0] || p in paths[1..] by {
        assert paths == [paths[0]] + paths[1..];
      }
      if Contains(paths[0], "mask") then DropMasks(paths[1..])
      else [paths[0]] + DropMasks(paths[1..])
  }

  /** Dropping the mask files keeps a sorted list sorted. */
  lemma {:induction false} DropMasksSorted(paths: seq<string>)
    requires Sorted(paths)
    ensures Sorted(DropMasks(paths))
  {
    if paths != [] {
      DropMasksSorted(paths[1..]);
      var rest := DropMasks(paths[1..]);
      forall q | q in rest ensures !Less(q, paths[0]) {
        var k :| 1 <= k < |paths| && paths[k] == q;
      }
    }
  }

  /** Dropping the mask files keeps a list without repetitions so. */
  lemma {:induction false} DropMasksDistinct(paths: seq<string>)
    requires Distinct(paths)
    ensures Distinct(DropMasks(paths))
  {
    if paths != [] {
      DropMasksDistinct(paths[1..]);
      var rest := DropMasks(paths[1..]);
      assert forall k :: 0 <= k < |paths| - 1 ==> paths[1..][k] != paths[0];
    }
  }

  /**
   * The usable files: the sorted `glob` result without the mask files. They are sorted, and
   * they are exactly the found paths that do not contain `mask`.
   */
  function Usable(found: seq<string>): (r: seq<string>)
    ensures Sorted(r)
    ensures forall p :: p in r <==> p in found && !Contains(p, "mask")
    ensures |r| <= |found|
    ensures Distinct(found) ==> Distinct(r)
  {
    var sorted := Sort(found);
    SortSorted(found);
    assert Distinct(found) ==> Distinct(DropMasks(sorted)) by {
      if Distinct(found) {
        DistinctPermutation(found, sorted);
        DropMasksDistinct(sorted);
      }
    }
    DropMasksSorted(sorted);
    forall p ensures p in sorted <==> p in found {
      assert p in sorted <==> p in multiset(sorted);
      assert p in found <==> p in multiset(found);
    }
    DropMasks(sorted)
  }

  /** The last `/` component of a path: the file name. */
  function LastComponent(p: string): (r: string)
    ensures '/' !in r
  {
    var parts := Split(p);
    parts[|parts| - 1]
  }

  /** The last component of every path, in order. */
  function Lasts(paths: seq<string>): (r: seq<string>)
    ensures |r| == |paths|
    ensures forall i :: 0 <= i < |paths| ==> r[i] == LastComponent(paths[i])
  {
    seq(|paths|, i requires 0 <= i < |paths| => LastComponent(paths[i]))
  }

  /** `w.replace('.nii.gz', '')` followed by `.replace('image_', '')`. */
  function Strip(w: string): string {
    ReplaceAll(ReplaceAll(w, ".nii.gz", ""), "image_", "")
  }

  /** `sequences_available`: the sorted file names, each stripped. */
  function Available(usable: seq<string>): (r: seq<string>)
    ensures |r| == |usable|
  {
    var names := Sort(Lasts(usable));
    assert |names| == |usable| by {
      SortSorted(Lasts(usable));
      assert |multiset(names)| == |multiset(Lasts(usable))|;
    }
    seq(|names|, i requires 0 <= i < |names| => Strip(names[i]))
  }

  /** No file is usable exactly when every found path contains `mask`: the skip branch. */
  lemma NoUsableImaging(found: seq<string>)
    ensures Usable(found) == [] <==> forall p :: p in found ==> Contains(p, "mask")
  {
    if Usable(found) != [] {
      assert Usable(found)[0] in Usable(found);
    }
  }

  /** The file name of a path `glob` reports for a patient is the directory entry itself. */
  lemma LastOfPatientPath(inpath: string, pid: string, entry: string)
    requires '/' !in entry
    ensures LastComponent(PatientDir(inpath, pid) + entry) == entry
  {
    assert PatientDir(inpath, pid) + entry == (inpath + pid) + "/" + entry;
    SplitAppend(inpath + pid, entry);
  }

  /**
   * Directory entries are free of `/`, so the file names of the paths `glob` reports for a
   * patient are the entries themselves, and distinct entries give distinct paths.
   */
  lemma GlobNames(inpath: string, pid: string, entries: seq<string>)
    requires forall i :: 0 <= i < |entries| ==> '/' !in entries[i]
    ensures Lasts(GlobPaths(PatientDir(inpath, pid), entries)) == entries
    ensures Distinct(entries) ==> Distinct(GlobPaths(PatientDir(inpath, pid), entries))
  {
    var found := GlobPaths(PatientDir(inpath, pid), entries);
    forall i | 0 <= i < |entries| ensures LastComponent(found[i]) == entries[i] {
      LastOfPatientPath(inpath, pid, entries[i]);
    }
    if Distinct(entries) {
      forall i, j | 0 <= i < j < |found| ensures found[i] != found[j] {
        assert LastComponent(found[i]) == entries[i] && LastComponent(found[j]) == entries[j];
      }
    }
  }

  /** Removing `.nii.gz` from a dot-free name followed by `.nii.gz` leaves the name. */
  lemma DropExtension(head: string)
    requires '.' !in head
    ensures ReplaceAll(head + ".nii.gz", ".nii.gz", "") == head
  {
    ReplaceSkips(head, ".nii.gz", ".nii.gz", "");
    ReplaceLeading(".nii.gz", "", "");
    assert head + "" == head;
  }

  /** Removing `image_` from a name without an `i` leaves it unchanged. */
  lemma KeepUnprefixed(w: string)
    requires 'i' !in w
    ensures ReplaceAll(w, "image_", "") == w
  {
    ReplaceSkips(w, "", "image_", "");
    assert w + "" == w;
  }

  lemma NameLetters(s: Seq)
    ensures '.' !in Name(s) && 'i' !in Name(s) && '/' !in Name(s)
  {
  }

  /** A file `SEQ.nii.gz` is stripped to the sequence name. */
  lemma StripCanonical(s: Seq)
    ensures Strip(Spell(s, ".nii.gz")) == Name(s)
  {
    NameLetters(s);
    DropExtension(Name(s));
    KeepUnprefixed(Name(s));
  }

  /** A file `image_SEQ.nii.gz` is stripped to the sequence name too. */
  lemma StripPrefixed(s: Seq)
    ensures Strip("image_" + Spell(s, ".nii.gz")) == Name(s)
  {
    var head := "image_" + Name(s);
    NameLetters(s);
    assert '.' !in head;
    assert "image_" + Spell(s, ".nii.gz") == head + ".nii.gz";
    DropExtension(head);
    ReplaceLeading("image_", Name(s), "");
    KeepUnprefixed(Name(s));
  }

  /**
   * When the usable files are named `SEQ.nii.gz` for distinct types, the available list is
   * the rank-ordered names of those types: the order the catalogue's sorted lists use.
   */
  lemma CanonicalAvailable(usable: seq<string>)
    requires Distinct(Lasts(usable))
    requires forall i :: 0 <= i < |usable| ==> LastComponent(usable[i]) in Spellings(".nii.gz")
    ensures Available(usable) == RankedNames(Present(Lasts(usable), ".nii.gz"))
  {
    var xs := Lasts(usable);
    var P := Present(xs, ".nii.gz");
    SortSpellings(xs, ".nii.gz");
    var ps := RankOrder(P);
    var r := Available(usable);
    forall i | 0 <= i < |r| ensures r[i] == RankedNames(P)[i] {
      StripCanonical(ps[i]);
    }
  }

  /** With one usable file the available list is its stripped file name. */
  lemma SingleAvailable(p: string)
    ensures Available([p]) == [Strip(LastComponent(p))]
  {
    var x := LastComponent(p);
    assert Lasts([p]) == [x];
    SortIsUnique([x], [x]);
  }

  /** Two usable files in one directory: their stripped names, in the order of the raw names. */
  lemma PairAvailable(d: string, x1: string, x2: string)
    requires '/' !in x1 && '/' !in x2 && Less(x1, x2)
    ensures Available([d + "/" + x1, d + "/" + x2]) == [Strip(x1), Strip(x2)]
  {
    SplitAppend(d, x1);
    SplitAppend(d, x2);
    assert Lasts([d + "/" + x1, d + "/" + x2]) == [x1, x2];
    LessAsymmetric(x1, x2);
    assert Sorted([x1, x2]);
    SortIsUnique([x1, x2], [x1, x2]);
  }

  /**
   * Directory entries are distinct and free of `/`, so the usable files of a patient are
   * entries of the patient directory and their file names are distinct.
   */
  lemma UsableNamesDistinct(inpath: string, pid: string, entries: seq<string>)
    requires Distinct(entries)
    requires forall i :: 0 <= i < |entries| ==> '/' !in entries[i]
    ensures var usable := Usable(GlobPaths(PatientDir(inpath, pid), entries));
      Distinct(Lasts(usable))
  {
    var dir := PatientDir(inpath, pid);
    var found := GlobPaths(dir, entries);
    forall i, j | 0 <= i < j < |found| ensures found[i] != found[j] {
      assert found[i][|dir|..] == entries[i] && found[j][|dir|..] == entries[j];
    }
    var usable := Usable(found);
    var names := Lasts(usable);
    forall i, j | 0 <= i < j < |names| ensures names[i] != names[j] {
      assert usable[i] in found && usable[j] in found;
      var a :| 0 <= a < |found| && found[a] == usable[i];
      var b :| 0 <= b < |found| && found[b] == usable[j];
      LastOfPatientPath(inpath, pid, entries[a]);
      LastOfPatientPath(inpath, pid, entries[b]);
    }
  }
}
