/**
 * The jet-pairing lookup table of the matching skimmer: for each number of
 * jets `nj` the table lists every way to form two dijets (two disjoint pairs
 * of jet indices), in the order `itertools.combinations` produces them.
 */
module MatchingSkimmer {

  const MinJets: nat := 4
  const MaxJets: nat := 4

  /** Two jet indices forming a dijet candidate. */
  type JetPair = (nat, nat)

  /** Two dijets: one way of pairing up the jets. */
  type Assignment = (JetPair, JetPair)

  /** `range(n)` */
  function Range(n: nat): (r: seq<nat>)
    ensures |r| == n && forall i :: 0 <= i < n ==> r[i] == i
  {
    seq(n, i => i)
  }

  /** `x` is the pair of the elements at two increasing positions of `s`. */
  ghost predicate IsCombination<T>(s: seq<T>, x: (T, T))
  {
    exists p, q :: 0 <= p < q < |s| && x == (s[p], s[q])
  }

  /**
   * `itertools.combinations(s, 2)`: every pair of elements taken in
   * increasing position order, the first position varying slowest.
   */
  function Combinations2<T>(s: seq<T>): (r: seq<(T, T)>)
    ensures forall x :: x in r ==> IsCombination(s, x)
    ensures forall p, q :: 0 <= p < q < |s| ==> (s[p], s[q]) in r
    decreases |s|
  {
    if |s| < 2 then []
    else
      var rest := Combinations2(s[1..]);
      var heads := seq(|s| - 1, k requires 0 <= k < |s| - 1 => (s[0], s[k + 1]));
      Combinations2Step(s, heads, rest);
      heads + rest
  }

  /** The induction step of `Combinations2`'s contract. */
  lemma Combinations2Step<T>(s: seq<T>, heads: seq<(T, T)>, rest: seq<(T, T)>)
    requires |s| >= 2
    requires heads == seq(|s| - 1, k requires 0 <= k < |s| - 1 => (s[0], s[k + 1]))
    requires forall x :: x in rest ==> IsCombination(s[1..], x)
    requires forall p, q :: 0 <= p < q < |s[1..]| ==> (s[1..][p], s[1..][q]) in rest
    ensures forall x :: x in heads + rest ==> IsCombination(s, x)
    ensures forall p, q :: 0 <= p < q < |s| ==> (s[p], s[q]) in heads + rest
  {
    forall x | x in heads + rest ensures IsCombination(s, x) {
      if x in heads {
        var k :| 0 <= k < |heads| && heads[k] == x;
        assert x == (s[0], s[k + 1]);
      } else {
        var p, q :| 0 <= p < q < |s[1..]| && x == (s[1..][p], s[1..][q]);
        assert x == (s[p + 1], s[q + 1]);
      }
    }
    forall p, q | 0 <= p < q < |s| ensures (s[p], s[q]) in heads + rest {
      if p == 0 {
        assert heads[q - 1] == (s[p], s[q]);
      } else {
        assert (s[1..][p - 1], s[1..][q - 1]) in rest;
      }
    }
  }

  /** The filter `len(set(i + j)) == MIN_JETS`: the four jet indices of a pairing are distinct. */
  predicate FourDistinct(e: Assignment)
  {
    |{e.0.0, e.0.1, e.1.0, e.1.1}| == MinJets
  }

  /** The comprehension's filter, applied in order. */
  function KeepFourDistinct(cands: seq<Assignment>): (r: seq<Assignment>)
    ensures forall e :: e in r <==> e in cands && FourDistinct(e)
    decreases |cands|
  {
    if cands == [] then []
    else (if FourDistinct(cands[0]) then [cands[0]] else []) + KeepFourDistinct(cands[1..])
  }

  /** `JET_ASSIGNMENTS[nj]`: the pairings of `nj` jets, filtered with `MIN_JETS` as in the class body. */
  function Assignments(nj: nat): seq<Assignment>
  {
    KeepFourDistinct(Combinations2(Combinations2(Range(nj))))
  }

  /** The class-level table, one entry per jet multiplicity from `MIN_JETS` to `MAX_JETS`. */
  function JetAssignments(): (table: map<nat, seq<Assignment>>)
    ensures table.Keys == {4}
    ensures forall nj :: nj in table ==> table[nj] == Assignments(nj)
  {
    map nj: nat | MinJets <= nj <= MaxJets :: Assignments(nj)
  }

  // ---------------------------------------------------------------------
  // Orders

  /** Strict order of natural numbers. */
  ghost function NatLess(): (nat, nat) -> bool
  {
    (x: nat, y: nat) => x < y
  }

  /** Lexicographic order on pairs built from an order on their components. */
  ghost function LexOrder<T>(less: (T, T) -> bool): ((T, T), (T, T)) -> bool
  {
    (x: (T, T), y: (T, T)) => less(x.0, y.0) || (x.0 == y.0 && less(x.1, y.1))
  }

  /** Every element comes before every later one. */
  ghost predicate SortedBy<T>(s: seq<T>, less: (T, T) -> bool)
  {
    forall i, j :: 0 <= i < j < |s| ==> less(s[i], s[j])
  }

  /** `combinations` of a sorted sequence is sorted lexicographically. */
  lemma {:induction false} Combinations2Sorted<T>(s: seq<T>, less: (T, T) -> bool)
    requires SortedBy(s, less)
    ensures SortedBy(Combinations2(s), LexOrder(less))
    decreases |s|
  {
    if |s| >= 2 {
      var rest := Combinations2(s[1..]);
      SortedSuffix(s, less);
      Combinations2Sorted(s[1..], less);
      var heads := seq(|s| - 1, k requires 0 <= k < |s| - 1 => (s[0], s[k + 1]));
      var lex := LexOrder(less);
      assert SortedBy(heads, lex) by {
        forall i, j | 0 <= i < j < |heads| ensures lex(heads[i], heads[j]) {
          assert less(s[i + 1], s[j + 1]);
        }
      }
      forall i, j | 0 <= i < |heads| && 0 <= j < |rest| ensures lex(heads[i], rest[j]) {
        HeadBeforeRest(s, less, rest[j]);
      }
      SortedConcat(heads, rest, lex);
      assert Combinations2(s) == heads + rest;
    }
  }

  /** Two sorted sequences, every element of the first before every element of the second, concatenate sorted. */
  lemma SortedConcat<T>(a: seq<T>, b: seq<T>, less: (T, T) -> bool)
    requires SortedBy(a, less) && SortedBy(b, less)
    requires forall i, j :: 0 <= i < |a| && 0 <= j < |b| ==> less(a[i], b[j])
    ensures SortedBy(a + b, less)
  {
    var r := a + b;
    forall i, j | 0 <= i < j < |r| ensures less(r[i], r[j]) {
      if j < |a| {
        assert r[i] == a[i] && r[j] == a[j];
      } else if i < |a| {
        assert r[i] == a[i] && r[j] == b[j - |a|];
      } else {
        assert r[i] == b[i - |a|] && r[j] == b[j - |a|];
      }
    }
  }

  /** A pair drawn from the tail of a sorted sequence starts after its head. */
  lemma HeadBeforeRest<T>(s: seq<T>, less: (T, T) -> bool, x: (T, T))
    requires |s| >= 2 && SortedBy(s, less)
    requires IsCombination(s[1..], x)
    ensures less(s[0], x.0)
  {
    var p, q :| 0 <= p < q < |s[1..]| && x == (s[1..][p], s[1..][q]);
    assert x.0 == s[p + 1];
  }

  /** Filtering keeps a sorted sequence sorted. */
  lemma {:induction false} KeepFourDistinctSorted(cands: seq<Assignment>, less: (Assignment, Assignment) -> bool)
    requires SortedBy(cands, less)
    ensures SortedBy(KeepFourDistinct(cands), less)
    decreases |cands|
  {
    if cands != [] {
      assert SortedBy(cands[1..], less) by {
        forall i, j | 0 <= i < j < |cands[1..]| ensures less(cands[1..][i], cands[1..][j]) {
          assert cands[1..][i] == cands[i + 1] && cands[1..][j] == cands[j + 1];
        }
      }
      KeepFourDistinctSorted(cands[1..], less);
      var rest := KeepFourDistinct(cands[1..]);
      var r := KeepFourDistinct(cands);
      forall i, j | 0 <= i < j < |r| ensures less(r[i], r[j]) {
        if FourDistinct(cands[0]) {
          if i == 0 {
            assert r[j] in cands[1..];
            var k :| 0 <= k < |cands[1..]| && cands[1..][k] == r[j];
            assert r[j] == cands[k + 1];
          } else {
            assert r[i] == rest[i - 1] && r[j] == rest[j - 1];
          }
        }
      }
    }
  }

  // ---------------------------------------------------------------------
  // What the table holds

  /** The jet pairs in `combinations(range(nj), 2)`. */
  lemma JetPairsInRange(nj: nat)
    ensures forall x: JetPair :: x in Combinations2(Range(nj)) <==> x.0 < x.1 < nj
  {
    var r := Range(nj);
    forall x: JetPair | x.0 < x.1 < nj ensures x in Combinations2(r) {
      assert x == (r[x.0], r[x.1]);
    }
    forall x: JetPair | x in Combinations2(r) ensures x.0 < x.1 < nj {
      assert IsCombination(r, x);
    }
  }

  /** A set of three listed numbers has at most three elements. */
  lemma AtMostThree(x: nat, y: nat, z: nat)
    ensures |{x, y, z}| <= 3
  {
    assert {x, y, z} == {x, y} + {z};
    assert |{x, y}| <= 2;
  }

  /** Four indices, all different, counted as a set. */
  lemma FourDistinctIff(e: Assignment)
    ensures FourDistinct(e) <==>
      (e.0.0 != e.0.1 && e.0.0 != e.1.0 && e.0.0 != e.1.1 &&
       e.0.1 != e.1.0 && e.0.1 != e.1.1 && e.1.0 != e.1.1)
  {
    var a, b, c, d := e.0.0, e.0.1, e.1.0, e.1.1;
    if a != b && a != c && a != d && b != c && b != d && c != d {
      assert {a, b, c, d} == {a, b, c} + {d};
      assert {a, b, c} == {a, b} + {c};
      assert |{a, b}| == 2;
    } else if a == b || a == c || a == d {
      assert {a, b, c, d} == {b, c, d};
      AtMostThree(b, c, d);
    } else if b == c || b == d {
      assert {a, b, c, d} == {a, c, d};
      AtMostThree(a, c, d);
    } else {
      assert {a, b, c, d} == {a, b, c};
      AtMostThree(a, b, c);
    }
  }

  /**
   * A valid pairing of `nj` jets in canonical form: each dijet lists its
   * smaller index first, the first dijet is lexicographically smaller than
   * the second, and the four indices are different and below `nj`.
   */
  ghost predicate CanonicalSplit(nj: nat, e: Assignment)
  {
    && e.0.0 < e.0.1 < nj
    && e.1.0 < e.1.1 < nj
    && LexOrder(NatLess())(e.0, e.1)
    && e.0.0 != e.1.0 && e.0.0 != e.1.1 && e.0.1 != e.1.0 && e.0.1 != e.1.1
  }

  /** `combinations(range(nj), 2)` is sorted lexicographically. */
  lemma JetPairsSorted(nj: nat)
    ensures SortedBy(Combinations2(Range(nj)), LexOrder(NatLess()))
  {
    Combinations2Sorted(Range(nj), NatLess());
  }

  /** One candidate pairing is in `JET_ASSIGNMENTS[nj]` exactly when it is canonical. */
  lemma AssignmentIff(nj: nat, e: Assignment)
    ensures e in Assignments(nj) <==> CanonicalSplit(nj, e)
  {
    var a := Combinations2(Range(nj));
    var less := LexOrder(NatLess());
    JetPairsInRange(nj);
    JetPairsSorted(nj);
    FourDistinctIff(e);
    assert e in Assignments(nj) <==> e in Combinations2(a) && FourDistinct(e);
    if e in Combinations2(a) {
      assert IsCombination(a, e);
      var p, q :| 0 <= p < q < |a| && e == (a[p], a[q]);
      assert less(a[p], a[q]);
      assert a[p] in a && a[q] in a;
    }
    if CanonicalSplit(nj, e) {
      assert e.0 in a && e.1 in a;
      var p :| 0 <= p < |a| && a[p] == e.0;
      var q :| 0 <= q < |a| && a[q] == e.1;
      assert p != q;
      assert e == (a[p], a[q]);
    }
  }

  /** The entries of `JET_ASSIGNMENTS[nj]` are exactly the canonical pairings of `nj` jets. */
  lemma AssignmentsExactly(nj: nat)
    ensures forall e :: e in Assignments(nj) <==> CanonicalSplit(nj, e)
  {
    forall e ensures e in Assignments(nj) <==> CanonicalSplit(nj, e) {
      AssignmentIff(nj, e);
    }
  }

  /** The entries come in strictly increasing lexicographic order, so none appears twice. */
  lemma AssignmentsSorted(nj: nat)
    ensures SortedBy(Assignments(nj), LexOrder(LexOrder(NatLess())))
    ensures forall i, j :: 0 <= i < j < |Assignments(nj)| ==> Assignments(nj)[i] != Assignments(nj)[j]
  {
    var a := Combinations2(Range(nj));
    var less := LexOrder(LexOrder(NatLess()));
    JetPairsSorted(nj);
    Combinations2Sorted(a, LexOrder(NatLess()));
    KeepFourDistinctSorted(Combinations2(a), less);
  }

  /** The first dijet of every entry holds the smallest of the four jet indices. */
  lemma FirstPairHoldsSmallest(nj: nat, e: Assignment)
    requires e in Assignments(nj)
    ensures e.0.0 < e.0.1 && e.0.0 < e.1.0 && e.0.0 < e.1.1
  {
    AssignmentsExactly(nj);
  }

  /** The unordered pair `{x, y}`. */
  predicate SamePair(p: JetPair, x: nat, y: nat)
  {
    p == (x, y) || p == (y, x)
  }

  /** The entry splits the jets into the unordered dijets `{a, b}` and `{c, d}`. */
  predicate SameSplit(e: Assignment, a: nat, b: nat, c: nat, d: nat)
  {
    (SamePair(e.0, a, b) && SamePair(e.1, c, d)) || (SamePair(e.0, c, d) && SamePair(e.1, a, b))
  }

  /** The canonical form of the split into `{a, b}` and `{c, d}`. */
  function Canonical(a: nat, b: nat, c: nat, d: nat): Assignment
  {
    var p := if a < b then (a, b) else (b, a);
    var q := if c < d then (c, d) else (d, c);
    if p.0 < q.0 || (p.0 == q.0 && p.1 < q.1) then (p, q) else (q, p)
  }

  /** A canonical pairing that describes the split `{a, b}`, `{c, d}` is its canonical form. */
  lemma SameSplitIsCanonical(nj: nat, e: Assignment, a: nat, b: nat, c: nat, d: nat)
    requires CanonicalSplit(nj, e) && SameSplit(e, a, b, c, d)
    ensures e == Canonical(a, b, c, d)
  {
  }

  /** Two listed pairings that describe the same split are the same pairing. */
  lemma ListedSplitUnique(nj: nat, e: Assignment, f: Assignment, a: nat, b: nat, c: nat, d: nat)
    requires e in Assignments(nj) && f in Assignments(nj)
    requires SameSplit(e, a, b, c, d) && SameSplit(f, a, b, c, d)
    ensures e == f
  {
    AssignmentIff(nj, e);
    AssignmentIff(nj, f);
    SameSplitIsCanonical(nj, e, a, b, c, d);
    SameSplitIsCanonical(nj, f, a, b, c, d);
  }

  /** The canonical form of a split of four distinct jets is canonical and describes that split. */
  lemma CanonicalDescribesSplit(nj: nat, a: nat, b: nat, c: nat, d: nat)
    requires a < nj && b < nj && c < nj && d < nj
    requires a != b && a != c && a != d && b != c && b != d && c != d
    ensures CanonicalSplit(nj, Canonical(a, b, c, d))
    ensures SameSplit(Canonical(a, b, c, d), a, b, c, d)
  {
  }

  /** Completeness: each split of four distinct jets below `nj` into two dijets is listed. */
  lemma SplitListed(nj: nat, a: nat, b: nat, c: nat, d: nat)
    requires a < nj && b < nj && c < nj && d < nj
    requires a != b && a != c && a != d && b != c && b != d && c != d
    ensures exists k :: 0 <= k < |Assignments(nj)| && SameSplit(Assignments(nj)[k], a, b, c, d)
  {
    var t := Assignments(nj);
    var e := Canonical(a, b, c, d);
    CanonicalDescribesSplit(nj, a, b, c, d);
    AssignmentIff(nj, e);
    var k :| 0 <= k < |t| && t[k] == e;
  }

  /** Uniqueness: no split of the jets into two dijets is listed twice. */
  lemma SplitListedOnce(nj: nat, a: nat, b: nat, c: nat, d: nat)
    ensures forall k, l ::
      && 0 <= k < |Assignments(nj)| && 0 <= l < |Assignments(nj)|
      && SameSplit(Assignments(nj)[k], a, b, c, d) && SameSplit(Assignments(nj)[l], a, b, c, d)
      ==> k == l
  {
    var t := Assignments(nj);
    AssignmentsSorted(nj);
    forall i, j | 0 <= i < |t| && 0 <= j < |t| && SameSplit(t[i], a, b, c, d) && SameSplit(t[j], a, b, c, d)
      ensures i == j
    {
      ListedSplitUnique(nj, t[i], t[j], a, b, c, d);
    }
  }

  /** The table entry for four jets, written out. */
  const FourJetEntries: seq<Assignment> := [((0, 1), (2, 3)), ((0, 2), (1, 3)), ((0, 3), (1, 2))]

  /** The three canonical pairings of four jets. */
  lemma CanonicalSplitsOfFour(e: Assignment)
    ensures CanonicalSplit(4, e) <==> e in FourJetEntries
  {
  }

  /** The entry for four jets, written out: three pairings, each with jet 0 in the first dijet. */
  lemma FourJetAssignments()
    ensures Assignments(4) == FourJetEntries
  {
    SameEntriesAsFour();
    AssignmentsSorted(4);
    ExpectedSorted();
    SortedSameElements(Assignments(4), FourJetEntries);
  }

  /** The whole table, written out. */
  lemma FourJetTable()
    ensures JetAssignments().Keys == {4} && JetAssignments()[4] == FourJetEntries
  {
    FourJetAssignments();
  }

  /** With four jets, every pairing puts jet 0 in its first dijet. */
  lemma FirstPairHasJetZero(e: Assignment)
    requires e in JetAssignments()[4]
    ensures e.0.0 == 0
  {
    assert e in Assignments(4);
    AssignmentIff(4, e);
    FirstPairHoldsSmallest(4, e);
  }

  /** The entries for four jets are the three canonical pairings. */
  lemma SameEntriesAsFour()
    ensures forall e :: e in Assignments(4) <==> e in FourJetEntries
  {
    forall e ensures e in Assignments(4) <==> e in FourJetEntries {
      AssignmentIff(4, e);
      CanonicalSplitsOfFour(e);
    }
  }

  /** The written-out table is in lexicographic order. */
  lemma ExpectedSorted()
    ensures SortedBy(FourJetEntries, LexOrder(LexOrder(NatLess())))
  {
  }

  /** No pairing comes before itself. */
  lemma OrderIrreflexive(x: Assignment)
    ensures !LexOrder(LexOrder(NatLess()))(x, x)
  {
  }

  /** Two strictly increasing sequences with the same elements are equal. */
  lemma {:induction false} SortedSameElements(s: seq<Assignment>, t: seq<Assignment>)
    requires SortedBy(s, LexOrder(LexOrder(NatLess())))
    requires SortedBy(t, LexOrder(LexOrder(NatLess())))
    requires forall e :: e in s <==> e in t
    ensures s == t
    decreases |s|
  {
    var less := LexOrder(LexOrder(NatLess()));
    HeadIsElement(s);
    HeadIsElement(t);
    if s != [] && t != [] {
      assert s[0] in t && t[0] in s;
      assert s[0] == t[0];
      forall e ensures e in s[1..] <==> e in t[1..] {
        OrderIrreflexive(e);
        if e in s[1..] {
          var i :| 1 <= i < |s| && s[i] == e;
          assert less(s[0], s[i]);
          assert e != t[0] && e in t;
        }
        if e in t[1..] {
          var i :| 1 <= i < |t| && t[i] == e;
          assert less(t[0], t[i]);
          assert e != s[0] && e in s;
        }
      }
      SortedSuffix(s, less);
      SortedSuffix(t, less);
      SortedSameElements(s[1..], t[1..]);
      assert s == [s[0]] + s[1..] && t == [t[0]] + t[1..];
    }
  }

  /** A non-empty sequence holds its first element. */
  lemma HeadIsElement<T>(s: seq<T>)
    ensures s != [] ==> s[0] in s
  {
  }

  /** Dropping the first element keeps a sequence sorted. */
  lemma SortedSuffix<T>(s: seq<T>, less: (T, T) -> bool)
    requires s != [] && SortedBy(s, less)
    ensures SortedBy(s[1..], less)
  {
    forall i, j | 0 <= i < j < |s[1..]| ensures less(s[1..][i], s[1..][j]) {
      assert s[1..][i] == s[i + 1] && s[1..][j] == s[j + 1];
    }
  }
}
