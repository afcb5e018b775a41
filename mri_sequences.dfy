/**
 * The four MRI sequence types and the order in which the script's sorted lists put them.
 * The source keeps sequence names as strings and relies on `sorted`; here the names are
 * attached to an enumeration and the string order is proved to agree with a fixed rank.
 */
module MriSequences {
  import opened Strings

  datatype Seq = FLAIR | T1 | T1CE | T2

  function Name(s: Seq): string {
    match s
    case FLAIR => "FLAIR"
    case T1 => "T1"
    case T1CE => "T1CE"
    case T2 => "T2"
  }

  /** Position in FLAIR, T1, T1CE, T2: the order of the names under Python's `<`. */
  function Rank(s: Seq): nat {
    match s
    case FLAIR => 0
    case T1 => 1
    case T1CE => 2
    case T2 => 3
  }

  const AllSeqs: set<Seq> := {FLAIR, T1, T1CE, T2}

  lemma InAllSeqs(s: Seq)
    ensures s in AllSeqs
  {
    match s
    case FLAIR =>
    case T1 =>
    case T1CE =>
    case T2 =>
  }

  /** A sequence name followed by a suffix: "" for the bare name, ".nii.gz" for its file. */
  function Spell(s: Seq, suffix: string): string {
    Name(s) + suffix
  }

  /** The names keep their rank order when a suffix starting below 'C' (such as ".nii.gz") is appended. */
  lemma SpellOrder(a: Seq, b: Seq, suffix: string)
    requires suffix == "" || suffix[0] < 'C'
    requires Rank(a) < Rank(b)
    ensures Less(Spell(a, suffix), Spell(b, suffix))
  {
    var x, y := Spell(a, suffix), Spell(b, suffix);
    if a == FLAIR {
      LessAt(x, y, 0);
    } else if a == T1 && b == T1CE {
      assert x[..2] == "T1" == y[..2];
      if suffix == "" {
        assert x == "T1";
        LessPrefix(x, y);
      } else {
        assert x[2] == suffix[0] && y[2] == 'C';
        LessAt(x, y, 2);
      }
    } else {
      assert x[..1] == "T" == y[..1];
      LessAt(x, y, 1);
    }
  }

  lemma SpellInjective(a: Seq, b: Seq, suffix: string)
    requires Spell(a, suffix) == Spell(b, suffix)
    ensures a == b
  {
    var x := Spell(a, suffix);
    assert |Name(a)| == |Name(b)|;
    assert Name(a) == x[..|Name(a)|] == Name(b);
  }

  /** Whether the ranks increase strictly along `ps`. */
  ghost predicate RankIncreasing(ps: seq<Seq>) {
    forall i, j :: 0 <= i < j < |ps| ==> Rank(ps[i]) < Rank(ps[j])
  }

  /** Two rank-increasing sequences with the same members are equal. */
  lemma {:induction false} RankIncreasingUnique(a: seq<Seq>, b: seq<Seq>)
    requires RankIncreasing(a) && RankIncreasing(b)
    requires forall s :: s in a <==> s in b
    ensures a == b
    decreases |a|
  {
    if a == [] {
      NonEmptyHasMember(b);
    } else {
      assert a[0] in b && b != [];
      RankIncreasingHeadLeast(a, b[0]);
      RankIncreasingHeadLeast(b, a[0]);
      assert a[0] == b[0];
      forall s ensures s in a[1..] <==> s in b[1..] {
        RankIncreasingTail(a, s);
        RankIncreasingTail(b, s);
      }
      RankIncreasingTailIncreasing(a);
      RankIncreasingTailIncreasing(b);
      RankIncreasingUnique(a[1..], b[1..]);
      assert a == [a[0]] + a[1..] && b == [b[0]] + b[1..];
    }
  }

  lemma NonEmptyHasMember(b: seq<Seq>)
    ensures b != [] <==> exists s :: s in b
  {
    if b != [] {
      assert b[0] in b;
    }
  }

  lemma RankIncreasingHeadLeast(a: seq<Seq>, x: Seq)
    requires RankIncreasing(a) && x in a
    ensures Rank(a[0]) <= Rank(x)
  {
    var k :| 0 <= k < |a| && a[k] == x;
    assert k == 0 || Rank(a[0]) < Rank(a[k]);
  }

  lemma RankIncreasingTail(a: seq<Seq>, s: Seq)
    requires RankIncreasing(a) && a != []
    ensures s in a[1..] <==> s in a && s != a[0]
  {
    if s in a[1..] {
      var k :| 0 <= k < |a[1..]| && a[1..][k] == s;
      assert a[k + 1] == s;
    }
    if s in a && s != a[0] {
      var k :| 0 <= k < |a| && a[k] == s;
      assert a[1..][k - 1] == s;
    }
  }

  lemma RankIncreasingTailIncreasing(a: seq<Seq>)
    requires RankIncreasing(a) && a != []
    ensures RankIncreasing(a[1..])
  {
    forall i, j | 0 <= i < j < |a[1..]| ensures Rank(a[1..][i]) < Rank(a[1..][j]) {
      assert a[1..][i] == a[i + 1] && a[1..][j] == a[j + 1];
    }
  }

  /** The members of `ps` that lie in `S`, in their order in `ps`. */
  function Keep(ps: seq<Seq>, S: set<Seq>): (r: seq<Seq>)
    ensures forall s :: s in r <==> s in ps && s in S
    ensures RankIncreasing(ps) ==> RankIncreasing(r)
    ensures |r| <= |ps|
    decreases |ps|
  {
    if ps == [] then []
    else
      var rest := Keep(ps[1..], S);
      assert RankIncreasing(ps) ==> RankIncreasing(ps[1..]) by {
        if RankIncreasing(ps) {
          forall i, j | 0 <= i < j < |ps[1..]| ensures Rank(ps[1..][i]) < Rank(ps[1..][j]) {
            assert ps[1..][i] == ps[i + 1] && ps[1..][j] == ps[j + 1];
          }
        }
      }
      assert ps == [ps[0]] + ps[1..];
      if ps[0] in S then
        KeepFront(ps, rest);
        [ps[0]] + rest
      else rest
  }

  lemma KeepFront(ps: seq<Seq>, rest: seq<Seq>)
    requires ps != []
    requires forall s :: s in rest ==> s in ps[1..]
    requires RankIncreasing(ps) ==> RankIncreasing(rest)
    ensures RankIncreasing(ps) ==> RankIncreasing([ps[0]] + rest)
  {
    if RankIncreasing(ps) {
      var r := [ps[0]] + rest;
      forall i, j | 0 <= i < j < |r| ensures Rank(r[i]) < Rank(r[j]) {
        if i == 0 {
          assert r[j] == rest[j - 1] && rest[j - 1] in ps[1..];
          var k :| 0 <= k < |ps[1..]| && ps[1..][k] == r[j];
          assert ps[k + 1] == r[j];
        } else {
          assert r[i] == rest[i - 1] && r[j] == rest[j - 1];
        }
      }
    }
  }

  /** The members of `S` in rank order: the order in which `sorted` lists their names. */
  function RankOrder(S: set<Seq>): (r: seq<Seq>)
    ensures forall s :: s in r <==> s in S
    ensures RankIncreasing(r)
    ensures |r| <= 4
  {
    var all := [FLAIR, T1, T1CE, T2];
    assert RankIncreasing(all) by {
      forall i, j | 0 <= i < j < 4 ensures Rank(all[i]) < Rank(all[j]) {
        assert Rank(all[i]) == i && Rank(all[j]) == j;
      }
    }
    var r := Keep(all, S);
    assert forall s :: s in r <==> s in S by {
      forall s ensures s in all {
        assert all[Rank(s)] == s;
      }
    }
    r
  }

  function Spelled(ps: seq<Seq>, suffix: string): (r: seq<string>)
    ensures |r| == |ps|
    ensures forall i :: 0 <= i < |ps| ==> r[i] == Spell(ps[i], suffix)
  {
    seq(|ps|, i requires 0 <= i < |ps| => Spell(ps[i], suffix))
  }

  /** The names of the members of `S` in rank order. */
  function RankedNames(S: set<Seq>): seq<string> {
    Spelled(RankOrder(S), "")
  }

  /** The sequence types whose spelling occurs in `xs`. */
  function Present(xs: seq<string>, suffix: string): set<Seq> {
    set s | s in AllSeqs && Spell(s, suffix) in xs
  }

  /** The spellings of all four sequence types with a given suffix. */
  function Spellings(suffix: string): set<string> {
    set s | s in AllSeqs :: Spell(s, suffix)
  }

  lemma RankedSpellingsStrictlySorted(ps: seq<Seq>, suffix: string)
    requires suffix == "" || suffix[0] < 'C'
    requires RankIncreasing(ps)
    ensures StrictlySorted(Spelled(ps, suffix))
  {
    var ys := Spelled(ps, suffix);
    forall i, j | 0 <= i < j < |ys| ensures Less(ys[i], ys[j]) {
      SpellOrder(ps[i], ps[j], suffix);
    }
  }

  lemma RankedSpellingsMembers(xs: seq<string>, suffix: string, x: string)
    requires forall i :: 0 <= i < |xs| ==> xs[i] in Spellings(suffix)
    ensures x in Spelled(RankOrder(Present(xs, suffix)), suffix) <==> x in xs
  {
    var P := Present(xs, suffix);
    var r := RankOrder(P);
    var ys := Spelled(r, suffix);
    if x in ys {
      var k :| 0 <= k < |ys| && ys[k] == x;
      assert r[k] in P;
    }
    if x in xs {
      var i :| 0 <= i < |xs| && xs[i] == x;
      assert x in Spellings(suffix);
      var s :| s in AllSeqs && Spell(s, suffix) == x;
      assert s in P;
      var k :| 0 <= k < |r| && r[k] == s;
      assert ys[k] == x;
    }
  }

  /**
   * Python's `sorted` applied to distinct spellings of sequence types lists them in rank order:
   * the positional order the catalogue and the staging rely on.
   */
  lemma SortSpellings(xs: seq<string>, suffix: string)
    requires suffix == "" || suffix[0] < 'C'
    requires Distinct(xs)
    requires forall i :: 0 <= i < |xs| ==> xs[i] in Spellings(suffix)
    ensures Sort(xs) == Spelled(RankOrder(Present(xs, suffix)), suffix)
  {
    var ys := Spelled(RankOrder(Present(xs, suffix)), suffix);
    RankedSpellingsStrictlySorted(RankOrder(Present(xs, suffix)), suffix);
    StrictlySortedIsSortedAndDistinct(ys);
    forall x ensures x in ys <==> x in xs {
      RankedSpellingsMembers(xs, suffix, x);
    }
    DistinctSameMembers(ys, xs);
    SortIsUnique(xs, ys);
  }

  /** Spelling a sequence of distinct types gives distinct strings. */
  lemma SpelledDistinct(ps: seq<Seq>, suffix: string)
    requires Distinct(ps)
    ensures Distinct(Spelled(ps, suffix))
  {
    var ys := Spelled(ps, suffix);
    forall i, j | 0 <= i < j < |ys| ensures ys[i] != ys[j] {
      if ys[i] == ys[j] {
        SpellInjective(ps[i], ps[j], suffix);
      }
    }
  }

  /** The types present in the rank-ordered spellings of a set are the set's members. */
  lemma PresentRanked(S: set<Seq>, suffix: string)
    ensures Present(Spelled(RankOrder(S), suffix), suffix) == S
  {
    var r := RankOrder(S);
    forall s ensures s in Present(Spelled(r, suffix), suffix) <==> s in S {
      PresentMember(r, suffix, s);
    }
  }

  lemma PresentMember(ps: seq<Seq>, suffix: string, s: Seq)
    ensures s in Present(Spelled(ps, suffix), suffix) <==> s in ps
  {
    var ys := Spelled(ps, suffix);
    if s in Present(ys, suffix) {
      var k :| 0 <= k < |ys| && ys[k] == Spell(s, suffix);
      SpellInjective(ps[k], s, suffix);
    }
    if s in ps {
      var k :| 0 <= k < |ps| && ps[k] == s;
      assert ys[k] == Spell(s, suffix);
    }
  }

  /** Every spelling of a type with a suffix is one of that suffix's spellings. */
  lemma SpelledAreSpellings(ps: seq<Seq>, suffix: string)
    ensures forall i :: 0 <= i < |ps| ==> Spelled(ps, suffix)[i] in Spellings(suffix)
  {
    forall i | 0 <= i < |ps| ensures Spelled(ps, suffix)[i] in Spellings(suffix) {
      InAllSeqs(ps[i]);
      assert Spelled(ps, suffix)[i] == Spell(ps[i], suffix);
    }
  }

  /** The types present in a spelled sequence are its members. */
  lemma PresentSpelled(ps: seq<Seq>, suffix: string)
    ensures Present(Spelled(ps, suffix), suffix) == set s | s in ps
  {
    forall s ensures s in Present(Spelled(ps, suffix), suffix) <==> s in ps {
      PresentMember(ps, suffix, s);
    }
  }

  /** The rank-ordered names of a set determine the set. */
  lemma RankedNamesInjective(S: set<Seq>, U: set<Seq>)
    requires RankedNames(S) == RankedNames(U)
    ensures S == U
  {
    PresentRanked(S, "");
    PresentRanked(U, "");
  }

  /** The rank-ordered names of a single type are that one name. */
  lemma SingleRanked(s: Seq)
    ensures RankedNames({s}) == [Name(s)]
  {
    RankIncreasingUnique(RankOrder({s}), [s]);
    assert Spell(s, "") == Name(s) + "" == Name(s);
  }
}
