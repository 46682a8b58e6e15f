/**
  Optimal storage of programs on tapes: a stable merge sort by length,
  round-robin placement of the sorted programs onto the tapes, and the
  retrieval time of a prefix of the program list.
 */
module OptimalStorage {

  datatype Program = Program(name: string, length: int)

  /** The tape storage: cell (tape, column) holds the program written there. */
  type Storage = map<(nat, nat), Program>

  predicate SortedByLength(s: seq<Program>) {
    forall i, j :: 0 <= i < j < |s| ==> s[i].length <= s[j].length
  }

  /** The programs of length `k` in `s`, in their order in `s`. */
  function OfLength(s: seq<Program>, k: int): (r: seq<Program>)
    ensures |r| <= |s|
  {
    if |s| == 0 then []
    else (if s[0].length == k then [s[0]] else []) + OfLength(s[1..], k)
  }

  /**
    `r` reorders `s` stably: for every length, the programs of that length
    appear in `r` in the same order as in `s`.
   */
  ghost predicate StableReorder(s: seq<Program>, r: seq<Program>) {
    forall k :: OfLength(r, k) == OfLength(s, k)
  }

  lemma AppendAssociative(a: seq<Program>, b: seq<Program>, c: seq<Program>)
    ensures (a + b) + c == a + (b + c)
  {
  }

  /** Picking the programs of length `k` from a sequence with a known first program. */
  lemma OfLengthCons(x: Program, t: seq<Program>, k: int)
    ensures OfLength([x] + t, k) == (if x.length == k then [x] else []) + OfLength(t, k)
  {
    assert ([x] + t)[1..] == t;
  }

  /** A non-empty `a` is its head followed by its tail, also in front of `b`. */
  lemma HeadSplit(a: seq<Program>, b: seq<Program>)
    requires |a| > 0
    ensures a == [a[0]] + a[1..]
    ensures a + b == [a[0]] + (a[1..] + b)
  {
  }

  lemma OfLengthAppendStep(a: seq<Program>, b: seq<Program>, k: int)
    requires |a| > 0
    requires OfLength(a[1..] + b, k) == OfLength(a[1..], k) + OfLength(b, k)
    ensures OfLength(a + b, k) == OfLength(a, k) + OfLength(b, k)
  {
    var h := if a[0].length == k then [a[0]] else [];
    HeadSplit(a, b);
    OfLengthCons(a[0], a[1..] + b, k);
    OfLengthCons(a[0], a[1..], k);
    AppendAssociative(h, OfLength(a[1..], k), OfLength(b, k));
  }

  lemma {:induction false} OfLengthAppend(a: seq<Program>, b: seq<Program>, k: int)
    ensures OfLength(a + b, k) == OfLength(a, k) + OfLength(b, k)
    decreases |a|
  {
    if |a| == 0 {
      assert a + b == b && OfLength(a, k) == [];
    } else {
      OfLengthAppend(a[1..], b, k);
      OfLengthAppendStep(a, b, k);
    }
  }

  /** When no program of `s` has length `k`, there is nothing to pick out. */
  lemma {:induction false} OfLengthAbsent(s: seq<Program>, k: int)
    requires forall i :: 0 <= i < |s| ==> s[i].length != k
    ensures OfLength(s, k) == []
    decreases |s|
  {
    if |s| > 0 {
      OfLengthAbsent(s[1..], k);
    }
  }

  // ---------------------------------------------------------------------------
  // merge

  /**
    The merge loop of `merge`: while both runs are non-empty the shorter head
    goes first, the left head winning ties (`<=`); then the rest of whichever
    run is left over.
   */
  function MergeRuns(l: seq<Program>, r: seq<Program>): (m: seq<Program>)
    ensures |m| == |l| + |r|
    decreases |l| + |r|
  {
    if |l| == 0 then r
    else if |r| == 0 then l
    else if l[0].length <= r[0].length then [l[0]] + MergeRuns(l[1..], r)
    else [r[0]] + MergeRuns(l, r[1..])
  }

  /** The merge loses and invents nothing. */
  lemma {:induction false} MergeRunsPermutes(l: seq<Program>, r: seq<Program>)
    ensures multiset(MergeRuns(l, r)) == multiset(l) + multiset(r)
    decreases |l| + |r|
  {
    if |l| == 0 || |r| == 0 {
    } else if l[0].length <= r[0].length {
      MergeRunsPermutes(l[1..], r);
      HeadSplit(l, []);
    } else {
      MergeRunsPermutes(l, r[1..]);
      HeadSplit(r, []);
    }
  }

  /** The first merged program is the head of one of the runs. */
  lemma MergeRunsHead(l: seq<Program>, r: seq<Program>)
    requires |l| + |r| > 0
    ensures var m := MergeRuns(l, r);
            (|l| > 0 && m[0] == l[0]) || (|r| > 0 && m[0] == r[0])
  {
  }

  lemma SortedCons(x: Program, t: seq<Program>)
    requires SortedByLength(t)
    requires |t| > 0 ==> x.length <= t[0].length
    ensures SortedByLength([x] + t)
  {
    var s := [x] + t;
    forall i, j | 0 <= i < j < |s|
      ensures s[i].length <= s[j].length
    {
      if i > 0 {
        assert s[i] == t[i - 1] && s[j] == t[j - 1];
      } else {
        assert s[j] == t[j - 1];
      }
    }
  }

  lemma {:induction false} MergeRunsSorted(l: seq<Program>, r: seq<Program>)
    requires SortedByLength(l) && SortedByLength(r)
    ensures SortedByLength(MergeRuns(l, r))
    decreases |l| + |r|
  {
    if |l| == 0 || |r| == 0 {
    } else if l[0].length <= r[0].length {
      var tail := MergeRuns(l[1..], r);
      MergeRunsSorted(l[1..], r);
      MergeRunsHead(l[1..], r);
      assert |l| > 1 ==> l[0].length <= l[1].length;
      SortedCons(l[0], tail);
    } else {
      var tail := MergeRuns(l, r[1..]);
      MergeRunsSorted(l, r[1..]);
      MergeRunsHead(l, r[1..]);
      assert |r| > 1 ==> r[0].length <= r[1].length;
      SortedCons(r[0], tail);
    }
  }

  lemma SortedTail(s: seq<Program>)
    requires |s| > 0 && SortedByLength(s)
    ensures SortedByLength(s[1..])
  {
    forall i, j | 0 <= i < j < |s[1..]|
      ensures s[1..][i].length <= s[1..][j].length
    {
      assert s[1..][i] == s[i + 1] && s[1..][j] == s[j + 1];
    }
  }

  /** A sorted run whose first program is longer than `k` holds no program of length `k`. */
  lemma SortedAbove(s: seq<Program>, k: int)
    requires |s| > 0 && SortedByLength(s) && k < s[0].length
    ensures OfLength(s, k) == []
  {
    OfLengthAbsent(s, k);
  }

  /** The stability step when the left head is taken. */
  lemma StableStepLeft(l: seq<Program>, r: seq<Program>, k: int)
    requires |l| > 0 && |r| > 0 && l[0].length <= r[0].length
    requires OfLength(MergeRuns(l[1..], r), k) == OfLength(l[1..], k) + OfLength(r, k)
    ensures OfLength(MergeRuns(l, r), k) == OfLength(l, k) + OfLength(r, k)
  {
    var h := if l[0].length == k then [l[0]] else [];
    assert MergeRuns(l, r) == [l[0]] + MergeRuns(l[1..], r);
    OfLengthCons(l[0], MergeRuns(l[1..], r), k);
    OfLengthCons(l[0], l[1..], k);
    assert [l[0]] + l[1..] == l;
    AppendAssociative(h, OfLength(l[1..], k), OfLength(r, k));
  }

  /** The stability step when the right head is taken: no program of the left run has its length. */
  lemma StableStepRight(l: seq<Program>, r: seq<Program>, k: int)
    requires |l| > 0 && |r| > 0 && r[0].length < l[0].length && SortedByLength(l)
    requires OfLength(MergeRuns(l, r[1..]), k) == OfLength(l, k) + OfLength(r[1..], k)
    ensures OfLength(MergeRuns(l, r), k) == OfLength(l, k) + OfLength(r, k)
  {
    var h := if r[0].length == k then [r[0]] else [];
    assert MergeRuns(l, r) == [r[0]] + MergeRuns(l, r[1..]);
    OfLengthCons(r[0], MergeRuns(l, r[1..]), k);
    OfLengthCons(r[0], r[1..], k);
    assert [r[0]] + r[1..] == r;
    if r[0].length == k {
      SortedAbove(l, k);
      assert OfLength(l, k) + OfLength(r[1..], k) == OfLength(r[1..], k);
    } else {
      assert h == [] && OfLength(r, k) == OfLength(r[1..], k);
    }
  }

  /**
    The merge is stable: when the left run is sorted, the programs of each
    length come out left-run first, each run in its own order.
   */
  lemma {:induction false} MergeRunsStable(l: seq<Program>, r: seq<Program>, k: int)
    requires SortedByLength(l)
    ensures OfLength(MergeRuns(l, r), k) == OfLength(l, k) + OfLength(r, k)
    decreases |l| + |r|
  {
    if |l| == 0 {
      assert l == [] && OfLength(l, k) == [];
    } else if |r| == 0 {
      assert r == [] && OfLength(r, k) == [];
    } else if l[0].length <= r[0].length {
      SortedTail(l);
      MergeRunsStable(l[1..], r, k);
      StableStepLeft(l, r, k);
    } else {
      MergeRunsStable(l, r[1..], k);
      StableStepRight(l, r, k);
    }
  }

  /** Both guarantees of the merge loop: sortedness and stability. */
  lemma MergeRunsFacts(l: seq<Program>, r: seq<Program>)
    ensures SortedByLength(l) && SortedByLength(r) ==> SortedByLength(MergeRuns(l, r))
    ensures SortedByLength(l) ==> StableReorder(l + r, MergeRuns(l, r))
    ensures multiset(MergeRuns(l, r)) == multiset(l + r)
  {
    MergeRunsPermutes(l, r);
    if SortedByLength(l) && SortedByLength(r) {
      MergeRunsSorted(l, r);
    }
    if SortedByLength(l) {
      forall k
        ensures OfLength(MergeRuns(l, r), k) == OfLength(l + r, k)
      {
        MergeRunsStable(l, r, k);
        OfLengthAppend(l, r, k);
      }
    }
  }

  /** `merge(programs, low, mid, high)`: the runs `[low..mid]` and `[mid+1..high]` merged in place. */
  function Merge(s: seq<Program>, low: nat, mid: nat, high: nat): (r: seq<Program>)
    requires low <= mid <= high < |s|
    ensures |r| == |s|
  {
    s[..low] + MergeRuns(s[low..mid + 1], s[mid + 1..high + 1]) + s[high + 1..]
  }

  /** Cells outside `[low..high]` are untouched by the merge. */
  lemma MergeKeepsOutside(s: seq<Program>, low: nat, mid: nat, high: nat)
    requires low <= mid <= high < |s|
    ensures var r := Merge(s, low, mid, high);
            forall i :: 0 <= i < |s| && (i < low || high < i) ==> r[i] == s[i]
  {
  }

  /**
    The merged range is a permutation of the old one; it is sorted when both
    runs were, and stable when the left run was.
   */
  lemma MergeCorrect(s: seq<Program>, low: nat, mid: nat, high: nat)
    requires low <= mid <= high < |s|
    ensures var r := Merge(s, low, mid, high);
            && multiset(r[low..high + 1]) == multiset(s[low..high + 1])
            && (SortedByLength(s[low..mid + 1]) && SortedByLength(s[mid + 1..high + 1]) ==>
                  SortedByLength(r[low..high + 1]))
            && (SortedByLength(s[low..mid + 1]) ==> StableReorder(s[low..high + 1], r[low..high + 1]))
  {
    var left := s[low..mid + 1];
    var right := s[mid + 1..high + 1];
    var merged := MergeRuns(left, right);
    var r := s[..low] + merged + s[high + 1..];
    assert r == Merge(s, low, mid, high);
    assert r[low..high + 1] == merged;
    assert s[low..high + 1] == left + right;
    MergeRunsFacts(left, right);
  }

  // ---------------------------------------------------------------------------
  // sort

  /** Stability composes: stable on each half, stable on the whole. */
  lemma StableAppend(a: seq<Program>, b: seq<Program>, c: seq<Program>, d: seq<Program>)
    requires StableReorder(a, c) && StableReorder(b, d)
    ensures StableReorder(a + b, c + d)
  {
    forall k
      ensures OfLength(c + d, k) == OfLength(a + b, k)
    {
      OfLengthAppend(a, b, k);
      OfLengthAppend(c, d, k);
    }
  }

  /**
    The recursion of `sort`, on the range it works on: a range of at most one
    program is left alone; a longer one is split after its middle element
    (`(low + high) / 2` is `(|t| - 1) / 2` places into the range), both halves
    are sorted and the two runs are merged.
   */
  function SortRun(t: seq<Program>): (r: seq<Program>)
    ensures |r| == |t|
    decreases |t|
  {
    if |t| <= 1 then t
    else
      var h := (|t| - 1) / 2;
      MergeRuns(SortRun(t[..h + 1]), SortRun(t[h + 1..]))
  }

  /** The sorted run is a stable, length-sorted permutation of the range. */
  lemma {:induction false} SortRunCorrect(t: seq<Program>)
    ensures SortedByLength(SortRun(t))
    ensures StableReorder(t, SortRun(t))
    ensures multiset(SortRun(t)) == multiset(t)
    decreases |t|
  {
    if |t| > 1 {
      var h := (|t| - 1) / 2;
      SortRunCorrect(t[..h + 1]);
      SortRunCorrect(t[h + 1..]);
      SortRunStep(t, h);
    }
  }

  /** Cutting `t` at `i` and joining the pieces gives `t` back. */
  lemma TakeDrop(t: seq<Program>, i: nat)
    requires i <= |t|
    ensures t[..i] + t[i..] == t
  {
  }

  /** One step of `SortRunCorrect`: the claims for the two halves give them for the merged run. */
  lemma SortRunStep(t: seq<Program>, h: nat)
    requires |t| > 1 && h == (|t| - 1) / 2
    requires var a, b := t[..h + 1], t[h + 1..];
             && SortedByLength(SortRun(a)) && StableReorder(a, SortRun(a)) && multiset(SortRun(a)) == multiset(a)
             && SortedByLength(SortRun(b)) && StableReorder(b, SortRun(b)) && multiset(SortRun(b)) == multiset(b)
    ensures SortedByLength(SortRun(t))
    ensures StableReorder(t, SortRun(t))
    ensures multiset(SortRun(t)) == multiset(t)
  {
    var a, b := t[..h + 1], t[h + 1..];
    SortRunSplit(t);
    MergeRunsFacts(SortRun(a), SortRun(b));
    TakeDrop(t, h + 1);
    StableAppend(a, b, SortRun(a), SortRun(b));
  }


  /**
    `sort(programs, low, high)`: the range `[low..high]` is sorted as
    `SortRun` describes, and nothing outside it changes.
   */
  function Sort(s: seq<Program>, low: nat, high: int): (r: seq<Program>)
    requires low <= high + 1 && high < |s|
    ensures |r| == |s|
  {
    s[..low] + SortRun(s[low..high + 1]) + s[high + 1..]
  }

  /** Cutting `p + m + q` at the seams gives back its parts. */
  lemma Seams(p: seq<Program>, m: seq<Program>, q: seq<Program>)
    ensures var x := p + m + q;
            && x[..|p|] == p
            && x[..|p| + |m|] == p + m
            && x[|p|..|p| + |m|] == m
            && x[|p| + |m|..] == q
  {
  }

  /** Replacing `s[low..mid]` by `x` leaves the cells from `mid + 1` on where they were. */
  lemma SpliceFirst(s: seq<Program>, low: nat, mid: nat, high: nat, x: seq<Program>)
    requires low <= mid < high < |s| && |x| == mid + 1 - low
    ensures var s1 := s[..low] + x + s[mid + 1..];
            && s1[..mid + 1] == s[..low] + x
            && s1[mid + 1..high + 1] == s[mid + 1..high + 1]
            && s1[high + 1..] == s[high + 1..]
  {
    Seams(s[..low], x, s[mid + 1..]);
    var rest := s[mid + 1..];
    assert rest[..high - mid] == s[mid + 1..high + 1];
    assert rest[high - mid..] == s[high + 1..];
  }

  /** The first recursive call of the in-place recursion, followed by the second one. */
  lemma InPlaceHalves(s: seq<Program>, low: nat, mid: nat, high: nat)
    requires low <= mid < high < |s|
    ensures Sort(Sort(s, low, mid), mid + 1, high)
            == s[..low] + SortRun(s[low..mid + 1]) + SortRun(s[mid + 1..high + 1]) + s[high + 1..]
  {
    var x := SortRun(s[low..mid + 1]);
    var s1 := Sort(s, low, mid);
    assert s1 == s[..low] + x + s[mid + 1..];
    SpliceFirst(s, low, mid, high, x);
  }

  /** Merging two adjacent runs laid out between a prefix and a suffix. */
  lemma MergeSpliced(p: seq<Program>, x: seq<Program>, y: seq<Program>, q: seq<Program>,
                     low: nat, mid: nat, high: nat)
    requires low == |p| && mid + 1 == |p| + |x| && high + 1 == |p| + |x| + |y| && low <= mid
    ensures Merge(p + x + y + q, low, mid, high) == p + MergeRuns(x, y) + q
  {
    var s := p + x + y + q;
    Seams(p + x, y, q);
    Seams(p, x, y + q);
    assert s == p + x + (y + q);
    assert s[..low] == p;
    assert s[low..mid + 1] == x;
    assert s[mid + 1..high + 1] == y;
    assert s[high + 1..] == q;
  }

  /** Merging two runs of the right sizes placed into `s` at `[low..mid]` and `[mid+1..high]`. */
  lemma MergeOfSpliced(s: seq<Program>, low: nat, mid: nat, high: nat, x: seq<Program>, y: seq<Program>)
    requires low <= mid < high < |s| && |x| == mid + 1 - low && |y| == high - mid
    ensures Merge(s[..low] + x + y + s[high + 1..], low, mid, high) == s[..low] + MergeRuns(x, y) + s[high + 1..]
  {
    MergeSpliced(s[..low], x, y, s[high + 1..], low, mid, high);
  }

  /** One step of `SortRun` on a run of two or more programs. */
  lemma SortRunSplit(t: seq<Program>)
    requires |t| > 1
    ensures var h := (|t| - 1) / 2;
            SortRun(t) == MergeRuns(SortRun(t[..h + 1]), SortRun(t[h + 1..]))
  {
  }

  /** The split `SortRun` makes in `s[low..high]` falls after `mid = (low + high) / 2`. */
  lemma SubrangeCuts(s: seq<Program>, low: nat, mid: nat, high: nat)
    requires low < high < |s| && mid == (low + high) / 2
    ensures var t := s[low..high + 1];
            var h := (|t| - 1) / 2;
            t[..h + 1] == s[low..mid + 1] && t[h + 1..] == s[mid + 1..high + 1]
  {
    var t := s[low..high + 1];
    assert (|t| - 1) / 2 == mid - low;
  }

  /** The run `s[low..high]` sorted as its two halves merged. */
  lemma SortRunHalves(s: seq<Program>, low: nat, mid: nat, high: nat)
    requires low < high < |s| && mid == (low + high) / 2
    ensures SortRun(s[low..high + 1]) == MergeRuns(SortRun(s[low..mid + 1]), SortRun(s[mid + 1..high + 1]))
  {
    SubrangeCuts(s, low, mid, high);
    SortRunSplit(s[low..high + 1]);
  }

  /** Sorting `s[low..high]` in one go gives its two sorted halves merged. */
  lemma SortAsMergedHalves(s: seq<Program>, low: nat, mid: nat, high: nat)
    requires low < high < |s| && mid == (low + high) / 2
    ensures Sort(s, low, high)
            == s[..low] + MergeRuns(SortRun(s[low..mid + 1]), SortRun(s[mid + 1..high + 1])) + s[high + 1..]
  {
    SortRunHalves(s, low, mid, high);
  }

  /** Sorting `[low..mid]`, then `[mid+1..high]`, then merging the two runs, for any split point. */
  lemma InPlaceThenMerge(s: seq<Program>, low: nat, mid: nat, high: nat)
    requires low <= mid < high < |s|
    ensures Merge(Sort(Sort(s, low, mid), mid + 1, high), low, mid, high)
            == s[..low] + MergeRuns(SortRun(s[low..mid + 1]), SortRun(s[mid + 1..high + 1])) + s[high + 1..]
  {
    InPlaceHalves(s, low, mid, high);
    MergeOfSpliced(s, low, mid, high, SortRun(s[low..mid + 1]), SortRun(s[mid + 1..high + 1]));
  }

  /**
    `Sort` is the in-place recursion of the C program: for `low < high` it sorts
    `[low..mid]`, then `[mid+1..high]` of the result, then merges the two runs.
   */
  lemma SortIsInPlaceRecursion(s: seq<Program>, low: nat, mid: nat, high: nat)
    requires low < high < |s| && mid == (low + high) / 2
    ensures Sort(s, low, high) == Merge(Sort(Sort(s, low, mid), mid + 1, high), low, mid, high)
  {
    SortAsMergedHalves(s, low, mid, high);
    InPlaceThenMerge(s, low, mid, high);
  }

  lemma SortCorrect(s: seq<Program>, low: nat, high: int)
    requires low <= high + 1 && high < |s|
    ensures var r := Sort(s, low, high);
            && r[..low] == s[..low] && r[high + 1..] == s[high + 1..]
            && SortedByLength(r[low..high + 1])
            && StableReorder(s[low..high + 1], r[low..high + 1])
            && multiset(r[low..high + 1]) == multiset(s[low..high + 1])
  {
    var r := Sort(s, low, high);
    var t := s[low..high + 1];
    assert r[..low] == s[..low];
    assert r[low..high + 1] == SortRun(t);
    assert r[high + 1..] == s[high + 1..];
    SortRunCorrect(t);
  }

  /** Sorting the first `n` programs: the sorted run, then the untouched rest. */
  lemma SortPrefix(s: seq<Program>, n: nat)
    requires n <= |s|
    ensures var r := Sort(s, 0, n - 1);
            r[..n] == SortRun(s[..n]) && r[n..] == s[n..]
  {
    assert s[..0] == [] && s[0..n] == s[..n];
    Seams([], SortRun(s[..n]), s[n..]);
  }

  /** Two sorted stable reorderings of each other start with the same program. */
  lemma SortedStableHeads(a: seq<Program>, b: seq<Program>)
    requires |a| > 0
    requires SortedByLength(a) && SortedByLength(b)
    requires StableReorder(a, b) || StableReorder(b, a)
    ensures |b| > 0 && a[0] == b[0]
  {
    var m := a[0].length;
    var la := OfLength(a, m);
    assert la == [a[0]] + OfLength(a[1..], m);
    assert |OfLength(b, m)| == |la| > 0;
    var n := b[0].length;
    assert OfLength(b, n) == [b[0]] + OfLength(b[1..], n);
    // a[0] and b[0] carry the same, smallest, length.
    assert m == n by {
      if m < n {
        OfLengthAbsent(b, m);
      } else if n < m {
        OfLengthAbsent(a, n);
      }
    }
    assert la == OfLength(b, m);
    assert la[0] == a[0];
  }

  /** Dropping a common first program keeps a stable reordering stable. */
  lemma StableTails(a: seq<Program>, b: seq<Program>)
    requires |a| > 0 && |b| > 0 && a[0] == b[0]
    requires StableReorder(a, b)
    ensures StableReorder(a[1..], b[1..])
  {
    forall k
      ensures OfLength(b[1..], k) == OfLength(a[1..], k)
    {
      var la, lb := OfLength(a, k), OfLength(b, k);
      assert la == lb;
      if a[0].length == k {
        assert la[1..] == OfLength(a[1..], k);
        assert lb[1..] == OfLength(b[1..], k);
      } else {
        assert la == OfLength(a[1..], k);
        assert lb == OfLength(b[1..], k);
      }
    }
  }

  /**
    A length-sorted stable reordering is unique: two sorted sequences that
    agree on the programs of every length are equal.
   */
  lemma {:induction false} SortedStableUnique(a: seq<Program>, b: seq<Program>)
    requires SortedByLength(a) && SortedByLength(b)
    requires StableReorder(a, b)
    ensures a == b
    decreases |a|
  {
    if |a| == 0 {
      if |b| > 0 {
        SortedStableHeads(b, a);
      }
    } else {
      SortedStableHeads(a, b);
      StableTails(a, b);
      SortedStableUnique(a[1..], b[1..]);
      assert a == [a[0]] + a[1..] && b == [b[0]] + b[1..];
    }
  }

  /** Sorting the whole list agrees with any other stable sort by length. */
  lemma SortIsTheStableSort(s: seq<Program>, r: seq<Program>)
    requires SortedByLength(r) && StableReorder(s, r)
    ensures Sort(s, 0, |s| - 1) == r
  {
    SortCorrect(s, 0, |s| - 1);
    var t := Sort(s, 0, |s| - 1);
    assert t[0..|s|] == t && s[0..|s|] == s;
    SortedStableUnique(t, r);
  }

  /** Sorting an already sorted list leaves it unchanged, so sorting twice is sorting once. */
  lemma SortIdempotent(s: seq<Program>)
    ensures var t := Sort(s, 0, |s| - 1);
            Sort(t, 0, |t| - 1) == t
  {
    var t := Sort(s, 0, |s| - 1);
    SortCorrect(s, 0, |s| - 1);
    assert t[0..|s|] == t;
    SortIsTheStableSort(t, t);
  }

  // ---------------------------------------------------------------------------
  // store

  /** Cell (tape, column) is written for program `column * tapeCount + tape`. */
  ghost predicate PlacedUpTo(storage: Storage, programs: seq<Program>, tapeCount: nat, count: nat)
    requires tapeCount >= 1 && count <= |programs|
  {
    && (forall c: (nat, nat) :: c in storage <==> c.0 < tapeCount && c.1 * tapeCount + c.0 < count)
    && (forall c: (nat, nat) :: c in storage ==>
          0 <= c.1 * tapeCount + c.0 < count && storage[c] == programs[c.1 * tapeCount + c.0])
  }

  /** Euclidean division by the tape count recovers the column and the tape of a slot. */
  lemma SlotDivMod(a: nat, b: nat, t: nat)
    requires a < t
    ensures (b * t + a) / t == b && (b * t + a) % t == a
  {
    var x := b * t + a;
    var q, r := x / t, x % t;
    assert x == q * t + r && 0 <= r < t;
    MulMonotoneStrict(q, b, t, r, a);
    MulMonotoneStrict(b, q, t, a, r);
  }

  /** Slots of different columns do not overlap: `q < b` puts slot `(r, q)` below column `b`. */
  lemma MulMonotoneStrict(q: int, b: int, t: nat, r: nat, a: nat)
    requires r < t && q * t + r == b * t + a
    ensures b <= q
  {
    if q < b {
      MulLe(q + 1, b, t);
    }
  }

  lemma MulLe(x: int, y: int, t: nat)
    requires x <= y
    ensures x * t <= y * t
  {
  }

  /** A slot index determines its cell: the tape and the column are recovered from it. */
  lemma SlotIndexUnique(a: nat, b: nat, c: nat, d: nat, t: nat)
    requires a < t && c < t && b * t + a == d * t + c
    ensures a == c && b == d
  {
    SlotDivMod(a, b, t);
    SlotDivMod(c, d, t);
  }

  lemma SlotOfIndex(i: nat, t: nat)
    requires t >= 1
    ensures i % t < t && (i / t) * t + i % t == i
  {
  }

  /** Program `i` of a placement sits at tape `i % tapeCount`, column `i / tapeCount`. */
  lemma PlacedAt(storage: Storage, programs: seq<Program>, tapeCount: nat, count: nat, i: nat)
    requires tapeCount >= 1 && count <= |programs| && i < count
    requires PlacedUpTo(storage, programs, tapeCount, count)
    ensures (i % tapeCount, i / tapeCount) in storage && storage[(i % tapeCount, i / tapeCount)] == programs[i]
  {
    var c: (nat, nat) := (i % tapeCount, i / tapeCount);
    SlotOfIndex(i, tapeCount);
    assert c.1 * tapeCount + c.0 == i;
  }

  /** Writing program `i` to its slot extends the placement by one program. */
  lemma PlaceNext(storage: Storage, programs: seq<Program>, tapeCount: nat, i: nat, tapeIter: nat, col: nat)
    requires tapeCount >= 1 && i < |programs|
    requires tapeIter < tapeCount && col * tapeCount + tapeIter == i
    requires PlacedUpTo(storage, programs, tapeCount, i)
    ensures PlacedUpTo(storage[(tapeIter, col) := programs[i]], programs, tapeCount, i + 1)
  {
    forall c: (nat, nat) | c.0 < tapeCount && c.1 * tapeCount + c.0 == i
      ensures c == (tapeIter, col)
    {
      SlotIndexUnique(c.0, c.1, tapeIter, col, tapeCount);
    }
  }

  /** Advancing the tape, and the column after the last tape, moves to the next slot. */
  lemma NextSlot(tapeCount: nat, tapeIter: nat, col: nat)
    requires tapeIter < tapeCount
    ensures var nextTape := (tapeIter + 1) % tapeCount;
            var nextCol := if nextTape == 0 then col + 1 else col;
            nextTape < tapeCount && nextCol * tapeCount + nextTape == col * tapeCount + tapeIter + 1
  {
    var nextTape := (tapeIter + 1) % tapeCount;
    if nextTape == 0 {
      assert tapeIter + 1 == tapeCount;
      assert (col + 1) * tapeCount == col * tapeCount + tapeCount;
    } else {
      assert nextTape == tapeIter + 1;
    }
  }

  /** The loop of `store`, from program `i` on, with `tapeIter` and `storageColIter` as parameters. */
  function StoreFrom(programs: seq<Program>, tapeCount: nat, count: nat, i: nat,
                     tapeIter: nat, col: nat, storage: Storage): (r: Storage)
    requires tapeCount >= 1 && i <= count <= |programs|
    requires tapeIter < tapeCount && col * tapeCount + tapeIter == i
    requires PlacedUpTo(storage, programs, tapeCount, i)
    ensures PlacedUpTo(r, programs, tapeCount, count)
    decreases count - i
  {
    if i == count then storage
    else
      var st := storage[(tapeIter, col) := programs[i]];
      PlaceNext(storage, programs, tapeCount, i, tapeIter, col);
      var nextTape := (tapeIter + 1) % tapeCount;
      var nextCol := if nextTape == 0 then col + 1 else col;
      NextSlot(tapeCount, tapeIter, col);
      StoreFrom(programs, tapeCount, count, i + 1, nextTape, nextCol, st)
  }

  /**
    `store`: program `i` goes to tape `i % tapeCount`, column `i / tapeCount`,
    and no other cell is written.
   */
  function Store(programs: seq<Program>, tapeCount: nat, progCount: nat): (storage: Storage)
    requires tapeCount >= 1 && progCount <= |programs|
    ensures forall i :: 0 <= i < progCount ==>
              (i % tapeCount, i / tapeCount) in storage
              && storage[(i % tapeCount, i / tapeCount)] == programs[i]
    ensures forall c: (nat, nat) :: c in storage <==> c.0 < tapeCount && c.1 * tapeCount + c.0 < progCount
  {
    var r := StoreFrom(programs, tapeCount, progCount, 0, 0, 0, map[]);
    forall i | 0 <= i < progCount
      ensures (i % tapeCount, i / tapeCount) in r && r[(i % tapeCount, i / tapeCount)] == programs[i]
    {
      PlacedAt(r, programs, tapeCount, progCount, i);
    }
    r
  }

  /**
    No program overwrites another in `store`: two different programs are
    given two different (tape, column) cells, so each keeps its own cell.
   */
  lemma {:induction false} StoreCellsDistinct(programs: seq<Program>, tapeCount: nat, progCount: nat, i: nat, j: nat)
    requires tapeCount >= 1 && progCount <= |programs|
    requires i < progCount && j < progCount && i != j
    ensures (i % tapeCount, i / tapeCount) != (j % tapeCount, j / tapeCount)
    ensures var storage := Store(programs, tapeCount, progCount);
            storage[(i % tapeCount, i / tapeCount)] == programs[i] && storage[(j % tapeCount, j / tapeCount)] == programs[j]
  {
    SlotOfIndex(i, tapeCount);
    SlotOfIndex(j, tapeCount);
  }

  /**
    `optimal_store`: sort the first `progCount` programs by length, then store
    them; the sorted list is returned too, since the C program sorts in place.
   */
  function OptimalStore(programs: seq<Program>, tapeCount: nat, progCount: nat): (r: (seq<Program>, Storage))
    requires tapeCount >= 1 && progCount <= |programs|
    ensures |r.0| == |programs| && r.0[progCount..] == programs[progCount..]
    ensures SortedByLength(r.0[..progCount])
    ensures StableReorder(programs[..progCount], r.0[..progCount])
    ensures forall i :: 0 <= i < progCount ==>
              (i % tapeCount, i / tapeCount) in r.1
              && r.1[(i % tapeCount, i / tapeCount)] == r.0[i]
  {
    SortPrefix(programs, progCount);
    SortRunCorrect(programs[..progCount]);
    (Sort(programs, 0, progCount - 1), Store(Sort(programs, 0, progCount - 1), tapeCount, progCount))
  }

  // ---------------------------------------------------------------------------
  // retrieval time

  /** Total length of `s`. */
  function TotalLength(s: seq<Program>): int {
    if |s| == 0 then 0 else s[0].length + TotalLength(s[1..])
  }

  /**
    The sum of the retrieval times of every program of `s` when stored in
    that order: program `j` is read past by the `|s| - j` programs from
    `j` on, so it is counted `|s| - j` times.
   */
  function Weighted(s: seq<Program>): int {
    if |s| == 0 then 0 else |s| * s[0].length + Weighted(s[1..])
  }

  /** The inner loop of `getRT` after `j` steps: the length of the first `j` programs. */
  function PrefixLength(s: seq<Program>, j: nat): int
    requires j <= |s|
  {
    if j == 0 then 0 else PrefixLength(s, j - 1) + s[j - 1].length
  }

  /** The outer loop of `getRT` after `i` steps: the prefix lengths of prefixes 1..i summed. */
  function NestedRT(s: seq<Program>, i: nat): int
    requires i <= |s|
  {
    if i == 0 then 0 else NestedRT(s, i - 1) + PrefixLength(s, i)
  }

  lemma {:induction false} TotalLengthSnoc(s: seq<Program>, x: Program)
    ensures TotalLength(s + [x]) == TotalLength(s) + x.length
    decreases |s|
  {
    if |s| > 0 {
      assert (s + [x])[1..] == s[1..] + [x];
      TotalLengthSnoc(s[1..], x);
    }
  }

  lemma {:induction false} PrefixLengthIsTotal(s: seq<Program>, j: nat)
    requires j <= |s|
    ensures PrefixLength(s, j) == TotalLength(s[..j])
    decreases j
  {
    if j > 0 {
      PrefixLengthIsTotal(s, j - 1);
      assert s[..j] == s[..j - 1] + [s[j - 1]];
      TotalLengthSnoc(s[..j - 1], s[j - 1]);
    }
  }

  /** Appending a program adds one more read of everything before it, and of itself. */
  lemma {:induction false} WeightedSnoc(s: seq<Program>, x: Program)
    ensures Weighted(s + [x]) == Weighted(s) + TotalLength(s) + x.length
    decreases |s|
  {
    if |s| > 0 {
      assert (s + [x])[1..] == s[1..] + [x];
      WeightedSnoc(s[1..], x);
    }
  }

  /** The nested sums of `getRT` equal the weighted closed form. */
  lemma {:induction false} NestedIsWeighted(s: seq<Program>, i: nat)
    requires i <= |s|
    ensures NestedRT(s, i) == Weighted(s[..i])
    decreases i
  {
    if i > 0 {
      NestedIsWeighted(s, i - 1);
      assert s[..i] == s[..i - 1] + [s[i - 1]];
      WeightedSnoc(s[..i - 1], s[i - 1]);
      PrefixLengthIsTotal(s, i);
      PrefixLengthIsTotal(s, i - 1);
    }
  }

  /**
    `getRT(programs, progIndex)`: for every `i <= progIndex` add the lengths
    of programs `0..i`. The result is the weighted sum in which program `j`
    counts `progIndex - j + 1` times.
   */
  method GetRT(programs: seq<Program>, progIndex: int) returns (rt: int)
    requires -1 <= progIndex < |programs|
    ensures rt == Weighted(programs[..progIndex + 1])
  {
    rt := 0;
    var i := 0;
    while i <= progIndex
      invariant 0 <= i <= progIndex + 1
      invariant rt == NestedRT(programs, i)
    {
      var j := 0;
      while j <= i
        invariant 0 <= j <= i + 1
        invariant rt == NestedRT(programs, i) + PrefixLength(programs, j)
      {
        rt := rt + programs[j].length;
        j := j + 1;
      }
      i := i + 1;
    }
    NestedIsWeighted(programs, progIndex + 1);
  }

  /** C integer division, which truncates toward zero. */
  function TruncDiv(a: int, b: int): (q: int)
    requires b > 0
    ensures a >= 0 ==> q * b <= a < (q + 1) * b
    ensures a < 0 ==> (q - 1) * b < a <= q * b
  {
    if a >= 0 then a / b
    else
      var p := (-a) / b;
      assert p * b <= -a < (p + 1) * b;
      assert (-p) * b == -(p * b) && (-p - 1) * b == -((p + 1) * b);
      -p
  }

  /** `getMRT`: the retrieval time of the whole list divided by the number of programs. */
  method GetMRT(programs: seq<Program>, progCount: int) returns (mrt: int)
    requires 1 <= progCount <= |programs|
    ensures mrt == TruncDiv(Weighted(programs[..progCount]), progCount)
  {
    var rt := GetRT(programs, progCount - 1);
    mrt := TruncDiv(rt, progCount);
  }

  // ---------------------------------------------------------------------------
  // optimality

  /** A program in front of `t` is read past `n = |t| + 1` times. */
  lemma WeightedCons(x: Program, t: seq<Program>, n: int)
    requires n == |t| + 1
    ensures Weighted([x] + t) == n * x.length + Weighted(t)
  {
    assert ([x] + t)[1..] == t;
  }

  /**
    Moving `b[p]` to the front of `b` (`p > 0`) is `b[p]`, then `b[0]`, then
    the rest; and it is `b[0]` in front of the move of `b[p - 1]` in `b[1..]`.
   */
  lemma MoveSplit(b: seq<Program>, p: nat)
    requires 0 < p < |b|
    ensures var t, rest := b[1..], b[1..p] + b[p + 1..];
            && [b[p]] + b[..p] + b[p + 1..] == [b[p]] + ([b[0]] + rest)
            && [t[p - 1]] + t[..p - 1] + t[p..] == [b[p]] + rest
            && b == [b[0]] + t
  {
  }

  /** Swapping the first two programs changes the retrieval time by the difference of their lengths. */
  lemma SwapFront(x: Program, y: Program, r: seq<Program>)
    ensures Weighted([x] + ([y] + r)) + y.length == Weighted([y] + ([x] + r)) + x.length
  {
    var n := |r| + 2;
    WeightedCons(x, [y] + r, n);
    WeightedCons(y, r, n - 1);
    WeightedCons(y, [x] + r, n);
    WeightedCons(x, r, n - 1);
    assert n * x.length == (n - 1) * x.length + x.length;
    assert n * y.length == (n - 1) * y.length + y.length;
  }

  /** The same program in front of two orders of equal size keeps their comparison. */
  lemma ConsKeepsOrder(x: Program, u: seq<Program>, v: seq<Program>)
    requires |u| == |v| && Weighted(u) <= Weighted(v)
    ensures Weighted([x] + u) <= Weighted([x] + v)
  {
    WeightedCons(x, u, |u| + 1);
    WeightedCons(x, v, |u| + 1);
  }

  /** One step of `MoveToFrontNoWorse`: the claim for `b[1..]` and `p - 1` gives it for `b` and `p`. */
  lemma MoveToFrontStep(b: seq<Program>, p: nat)
    requires 0 < p < |b| && b[p].length <= b[0].length
    requires var t := b[1..]; Weighted([t[p - 1]] + t[..p - 1] + t[p..]) <= Weighted(t)
    ensures Weighted([b[p]] + b[..p] + b[p + 1..]) <= Weighted(b)
  {
    var t, rest := b[1..], b[1..p] + b[p + 1..];
    MoveSplit(b, p);
    SwapFront(b[p], b[0], rest);
    ConsKeepsOrder(b[0], [b[p]] + rest, t);
  }

  /**
    One step of `SortedMinimizesRetrieval`: `a[0]` moved to the front of `b`
    costs no more than `b`, and the rest of `a` costs no more than the rest of `b`.
   */
  lemma MinimizeStep(a: seq<Program>, b: seq<Program>, p: nat)
    requires 0 < |a| == |b| && p < |b| && b[p] == a[0]
    requires Weighted([b[p]] + b[..p] + b[p + 1..]) <= Weighted(b)
    requires Weighted(a[1..]) <= Weighted(b[..p] + b[p + 1..])
    ensures Weighted(a) <= Weighted(b)
  {
    var rest := b[..p] + b[p + 1..];
    AppendAssociative([b[p]], b[..p], b[p + 1..]);
    HeadSplit(a, []);
    ConsKeepsOrder(a[0], a[1..], rest);
  }

  /** Moving a shortest program to the front never increases the retrieval time. */
  lemma {:induction false} MoveToFrontNoWorse(b: seq<Program>, p: nat)
    requires p < |b|
    requires forall j :: 0 <= j < p ==> b[p].length <= b[j].length
    ensures Weighted([b[p]] + b[..p] + b[p + 1..]) <= Weighted(b)
    decreases p
  {
    if p == 0 {
      assert [b[0]] + b[..0] + b[1..] == b;
    } else {
      MoveToFrontNoWorse(b[1..], p - 1);
      MoveToFrontStep(b, p);
    }
  }

  lemma SortedHeadIsShortest(a: seq<Program>, b: seq<Program>)
    requires |a| > 0 && SortedByLength(a)
    requires multiset(a) == multiset(b)
    ensures forall j :: 0 <= j < |b| ==> a[0].length <= b[j].length
  {
    forall j | 0 <= j < |b|
      ensures a[0].length <= b[j].length
    {
      assert b[j] in multiset(a);
      var q :| 0 <= q < |a| && a[q] == b[j];
    }
  }

  /** Removing the same program from two permutations of each other leaves permutations. */
  lemma RemoveMatching(a: seq<Program>, b: seq<Program>, p: nat)
    requires |a| > 0 && p < |b| && b[p] == a[0]
    requires multiset(a) == multiset(b)
    ensures multiset(a[1..]) == multiset(b[..p] + b[p + 1..])
  {
    assert b == b[..p] + [b[p]] + b[p + 1..];
    assert a == [a[0]] + a[1..];
    calc {
      multiset(b[..p] + b[p + 1..]);
      multiset(b[..p]) + multiset(b[p + 1..]);
      multiset(b) - multiset{b[p]};
      multiset(a) - multiset{a[0]};
      multiset(a[1..]);
    }
  }

  /**
    The "optimal" in optimal storage: the length-sorted order has the least
    retrieval time among all orders of the same programs.
   */
  lemma {:induction false} SortedMinimizesRetrieval(a: seq<Program>, b: seq<Program>)
    requires SortedByLength(a)
    requires multiset(a) == multiset(b)
    ensures Weighted(a) <= Weighted(b)
    decreases |a|
  {
    if |a| > 0 {
      assert |b| == |a| by {
        assert |multiset(a)| == |a| && |multiset(b)| == |b|;
      }
      assert a[0] in multiset(b);
      var p :| 0 <= p < |b| && b[p] == a[0];
      SortedHeadIsShortest(a, b);
      MoveToFrontNoWorse(b, p);
      RemoveMatching(a, b, p);
      SortedTail(a);
      SortedMinimizesRetrieval(a[1..], b[..p] + b[p + 1..]);
      MinimizeStep(a, b, p);
    }
  }


  /** The total retrieval time after `optimal_store` is no more than that of any order of the same programs. */
  lemma OptimalStoreIsOptimal(programs: seq<Program>, tapeCount: nat, other: seq<Program>)
    requires tapeCount >= 1 && multiset(other) == multiset(programs)
    ensures Weighted(OptimalStore(programs, tapeCount, |programs|).0) <= Weighted(other)
  {
    SortCorrect(programs, 0, |programs| - 1);
    var t := OptimalStore(programs, tapeCount, |programs|).0;
    assert t == Sort(programs, 0, |programs| - 1);
    assert t[0..|programs|] == t && programs[0..|programs|] == programs;
    SortedMinimizesRetrieval(t, other);
  }

  // ---------------------------------------------------------------------------
  // documented run

  /** The programs of length `k` among three. */
  lemma OfLengthThree(x: Program, y: Program, z: Program, k: int)
    ensures OfLength([x, y, z], k)
            == (if x.length == k then [x] else [])
               + (if y.length == k then [y] else [])
               + (if z.length == k then [z] else [])
  {
    assert [x, y, z][1..] == [y, z] && [y, z][1..] == [z] && [z][1..] == [];
    assert OfLength([z], k) == (if z.length == k then [z] else []) + OfLength([], k);
    assert OfLength([y, z], k) == (if y.length == k then [y] else []) + OfLength([z], k);
    assert OfLength([x, y, z], k) == (if x.length == k then [x] else []) + OfLength([y, z], k);
  }

  /** Retrieval time of three programs: the first is read past three times, the second twice. */
  lemma WeightedThree(x: Program, y: Program, z: Program)
    ensures Weighted([x, y, z]) == 3 * x.length + 2 * y.length + z.length
  {
    assert [x, y, z][1..] == [y, z] && [y, z][1..] == [z] && [z][1..] == [];
    assert Weighted([z]) == z.length + Weighted([]);
    assert Weighted([y, z]) == 2 * y.length + Weighted([z]);
    assert Weighted([x, y, z]) == 3 * x.length + Weighted([y, z]);
  }

  /** Three programs on two tapes: tape 0 gets the first and the third, tape 1 the second. */
  lemma StoreThreeOnTwo(s: seq<Program>)
    requires |s| == 3
    ensures Store(s, 2, 3) == map[(0, 0) := s[0], (1, 0) := s[1], (0, 1) := s[2]]
  {
    var st := Store(s, 2, 3);
    var m := map[(0, 0) := s[0], (1, 0) := s[1], (0, 1) := s[2]];
    forall c: (nat, nat)
      ensures c in st <==> c in m
    {
      if c.1 >= 2 {
        MulLe(2, c.1, 2);
      }
    }
    assert st[(0, 0)] == s[0] by { assert (0 % 2, 0 / 2) == (0, 0); }
    assert st[(1, 0)] == s[1] by { assert (1 % 2, 1 / 2) == (1, 0); }
    assert st[(0, 1)] == s[2] by { assert (2 % 2, 2 / 2) == (0, 1); }
  }

  /** The documented input: pg1, pg2 and pg3 of lengths 5, 10 and 3. */
  const SampleInput: seq<Program> := [Program("pg1", 5), Program("pg2", 10), Program("pg3", 3)]

  /** The documented input sorted by length. */
  const SampleSorted: seq<Program> := [Program("pg3", 3), Program("pg1", 5), Program("pg2", 10)]

  /** The documented tapes: pg3 then pg2 on tape 0, pg1 on tape 1. */
  const SampleTapes: Storage := map[(0, 0) := Program("pg3", 3), (1, 0) := Program("pg1", 5),
                                    (0, 1) := Program("pg2", 10)]

  /** The documented input sorts to pg3, pg1, pg2. */
  lemma SampleSorts()
    ensures Sort(SampleInput, 0, 2) == SampleSorted
  {
    forall k
      ensures OfLength(SampleSorted, k) == OfLength(SampleInput, k)
    {
      OfLengthThree(Program("pg1", 5), Program("pg2", 10), Program("pg3", 3), k);
      OfLengthThree(Program("pg3", 3), Program("pg1", 5), Program("pg2", 10), k);
    }
    SortIsTheStableSort(SampleInput, SampleSorted);
  }

  /** The documented input on two tapes. */
  lemma SampleStores()
    ensures OptimalStore(SampleInput, 2, 3).0 == SampleSorted
    ensures OptimalStore(SampleInput, 2, 3).1 == SampleTapes
  {
    SampleSorts();
    StoreThreeOnTwo(SampleSorted);
  }

  /** The documented input has a mean retrieval time of 12: (3 * 5 + 2 * 10 + 3) / 3. */
  lemma SampleRetrieval()
    ensures TruncDiv(Weighted(SampleInput[..3]), 3) == 12
  {
    assert SampleInput[..3] == SampleInput;
    WeightedThree(SampleInput[0], SampleInput[1], SampleInput[2]);
  }

  /** `main` on the documented input: the mean retrieval time, the sorted list and the tapes. */
  method Sample() returns (mrt: int, sorted: seq<Program>, storage: Storage)
    ensures mrt == 12
    ensures sorted == SampleSorted && storage == SampleTapes
  {
    mrt := GetMRT(SampleInput, 3);
    SampleRetrieval();
    var r := OptimalStore(SampleInput, 2, 3);
    SampleStores();
    sorted, storage := r.0, r.1;
  }
}
