/** Runs of zero groups in an address, and the one the abbreviation
    compresses: the longest, and the earliest among equally long ones
    (the strict `>` of the selection loop). Also the bookkeeping of the scan
    that finds them: the scan files the index of every zero group under the
    number of non-zero groups seen before it, so one file holds one run. */
module ZeroRuns {
  import opened Wrappers

  datatype Run = Run(start: nat, len: nat)

  /** A maximal block of zeros. */
  predicate IsZeroRun(a: seq<nat>, r: Run)
  {
    && r.len >= 1
    && r.start + r.len <= |a|
    && (forall i :: r.start <= i < r.start + r.len ==> a[i] == 0)
    && (r.start == 0 || a[r.start - 1] != 0)
    && (r.start + r.len == |a| || a[r.start + r.len] != 0)
  }

  /** No zero run is longer, and no equally long one starts earlier. */
  ghost predicate IsChosenRun(a: seq<nat>, r: Run)
  {
    && IsZeroRun(a, r)
    && forall r' :: IsZeroRun(a, r') ==> r'.len <= r.len && (r'.len == r.len ==> r.start <= r'.start)
  }

  predicate RunStartsAt(a: seq<nat>, s: nat)
  {
    s < |a| && a[s] == 0 && (s == 0 || a[s - 1] != 0)
  }

  /** The number of consecutive zeros from `s` on. */
  function ZerosFrom(a: seq<nat>, s: nat): (n: nat)
    requires s <= |a|
    ensures s + n <= |a|
    ensures forall i :: s <= i < s + n ==> a[i] == 0
    ensures s + n == |a| || a[s + n] != 0
    decreases |a| - s
  {
    if s < |a| && a[s] == 0 then 1 + ZerosFrom(a, s + 1) else 0
  }

  /** The earliest longest run among those starting at `s` or later. */
  function BestFrom(a: seq<nat>, s: nat): Option<Run>
    requires s <= |a|
    decreases |a| - s
  {
    if s == |a| then None
    else
      var rest := BestFrom(a, s + 1);
      if RunStartsAt(a, s) then
        var here := Run(s, ZerosFrom(a, s));
        if rest.None? || rest.value.len <= here.len then Some(here) else rest
      else rest
  }

  /** The run the abbreviation compresses, if any group is zero. */
  function LongestZeroRun(a: seq<nat>): Option<Run>
  {
    BestFrom(a, 0)
  }

  // ---------------------------------------------------- the reference run

  lemma RunAtStart(a: seq<nat>, s: nat)
    requires RunStartsAt(a, s)
    ensures IsZeroRun(a, Run(s, ZerosFrom(a, s)))
  {
  }

  lemma RunIsFromStart(a: seq<nat>, r: Run)
    requires IsZeroRun(a, r)
    ensures RunStartsAt(a, r.start) && r.len == ZerosFrom(a, r.start)
  {
    ZerosFromRun(a, r.start, r.len);
  }

  lemma {:induction false} ZerosFromRun(a: seq<nat>, s: nat, n: nat)
    requires s + n <= |a|
    requires forall i :: s <= i < s + n ==> a[i] == 0
    requires s + n == |a| || a[s + n] != 0
    ensures ZerosFrom(a, s) == n
    decreases n
  {
    if n > 0 {
      ZerosFromRun(a, s + 1, n - 1);
    }
  }

  lemma {:induction false} BestFromSpec(a: seq<nat>, s: nat)
    requires s <= |a|
    ensures BestFrom(a, s).None? <==> forall t :: s <= t < |a| ==> !RunStartsAt(a, t)
    ensures BestFrom(a, s).Some? ==>
      var r := BestFrom(a, s).value;
      && IsZeroRun(a, r) && s <= r.start
      && forall r' :: IsZeroRun(a, r') && s <= r'.start ==>
           r'.len <= r.len && (r'.len == r.len ==> r.start <= r'.start)
    decreases |a| - s
  {
    if s < |a| {
      BestFromSpec(a, s + 1);
      if RunStartsAt(a, s) {
        RunAtStart(a, s);
      }
      var b := BestFrom(a, s);
      if b.Some? {
        forall r' | IsZeroRun(a, r') && s <= r'.start
          ensures r'.len <= b.value.len && (r'.len == b.value.len ==> b.value.start <= r'.start)
        {
          RunIsFromStart(a, r');
        }
      }
    }
  }

  lemma {:induction false} SomeRunStart(a: seq<nat>, i: nat)
    requires i < |a| && a[i] == 0
    ensures exists t :: 0 <= t <= i && RunStartsAt(a, t)
  {
    if i > 0 && a[i - 1] == 0 {
      SomeRunStart(a, i - 1);
    } else {
      assert RunStartsAt(a, i);
    }
  }

  /** The reference run exists exactly when some group is zero, and it is the
      earliest of the longest zero runs. */
  lemma LongestZeroRunSpec(a: seq<nat>)
    ensures LongestZeroRun(a).None? <==> forall i :: 0 <= i < |a| ==> a[i] != 0
    ensures LongestZeroRun(a).Some? ==> IsChosenRun(a, LongestZeroRun(a).value)
  {
    BestFromSpec(a, 0);
    if exists i :: 0 <= i < |a| && a[i] == 0 {
      var i :| 0 <= i < |a| && a[i] == 0;
      SomeRunStart(a, i);
    }
  }

  /** At most one run is the chosen one. */
  lemma ChosenRunUnique(a: seq<nat>, r1: Run, r2: Run)
    requires IsChosenRun(a, r1) && IsChosenRun(a, r2)
    ensures r1 == r2
  {
  }

  /** A single zero group is a run of length one, and it is compressed when it is the only zero. */
  lemma SingleZeroIsChosen(a: seq<nat>, i: nat)
    requires i < |a| && a[i] == 0
    requires forall j :: 0 <= j < |a| && j != i ==> a[j] != 0
    ensures LongestZeroRun(a) == Some(Run(i, 1))
  {
    LongestZeroRunSpec(a);
    assert IsZeroRun(a, Run(i, 1));
    var r := LongestZeroRun(a).value;
    assert a[r.start] == 0;
  }

  // ------------------------------------------------- the scan's bookkeeping

  /** The non-zero groups among the first `n`: the `$KeyGroupID` the scan has reached. */
  function NonZeroCount(a: seq<nat>, n: nat): nat
    requires n <= |a|
  {
    if n == 0 then 0 else NonZeroCount(a, n - 1) + (if a[n - 1] != 0 then 1 else 0)
  }

  /** The indices below `n` that the scan files under `id`. */
  function Members(a: seq<nat>, n: nat, id: int): seq<nat>
    requires n <= |a|
  {
    if n == 0 then []
    else Members(a, n - 1, id) + (if a[n - 1] == 0 && NonZeroCount(a, n - 1) == id then [n - 1] else [])
  }

  function Range(lo: nat, hi: nat): (r: seq<nat>)
    requires lo <= hi
    ensures |r| == hi - lo && forall i :: 0 <= i < |r| ==> r[i] == lo + i
  {
    seq(hi - lo, i => lo + i)
  }

  lemma {:induction false} NonZeroCountMonotone(a: seq<nat>, i: nat, j: nat)
    requires i <= j <= |a|
    ensures NonZeroCount(a, i) <= NonZeroCount(a, j)
    ensures i < j && a[i] != 0 ==> NonZeroCount(a, i) < NonZeroCount(a, j)
    ensures (forall t :: i <= t < j ==> a[t] == 0) ==> NonZeroCount(a, i) == NonZeroCount(a, j)
    decreases j - i
  {
    if i < j {
      NonZeroCountMonotone(a, i, j - 1);
      if a[i] != 0 && i < j - 1 {
        NonZeroCountMonotone(a, i + 1, j - 1);
        NonZeroCountMonotone(a, i, i + 1);
      }
    }
  }

  lemma {:induction false} MembersSpec(a: seq<nat>, n: nat, id: int, j: nat)
    requires n <= |a|
    ensures j in Members(a, n, id) <==> j < n && a[j] == 0 && NonZeroCount(a, j) == id
  {
    if n > 0 {
      MembersSpec(a, n - 1, id, j);
    }
  }

  lemma {:induction false} MembersAlongRun(a: seq<nat>, r: Run, n: nat)
    requires IsZeroRun(a, r) && n <= |a|
    ensures Members(a, n, NonZeroCount(a, r.start))
         == if n <= r.start then [] else if n <= r.start + r.len then Range(r.start, n) else Range(r.start, r.start + r.len)
  {
    var id := NonZeroCount(a, r.start);
    var e := r.start + r.len;
    if n > 0 {
      MembersAlongRun(a, r, n - 1);
      var j := n - 1;
      if j < r.start {
        if a[j] == 0 {
          NonZeroCountMonotone(a, j, r.start - 1);
          NonZeroCountMonotone(a, r.start - 1, r.start);
        }
      } else if j < e {
        NonZeroCountMonotone(a, r.start, j);
      } else if j > e {
        NonZeroCountMonotone(a, r.start, e);
        NonZeroCountMonotone(a, e, j);
      }
    }
  }

  /** The file of a run's id holds exactly that run's indices. */
  lemma MembersOfRun(a: seq<nat>, r: Run)
    requires IsZeroRun(a, r)
    ensures Members(a, |a|, NonZeroCount(a, r.start)) == Range(r.start, r.start + r.len)
  {
    MembersAlongRun(a, r, |a|);
  }

  /** The run a zero group belongs to. */
  function RunContaining(a: seq<nat>, j: nat): (r: Run)
    requires j < |a| && a[j] == 0
    ensures IsZeroRun(a, r) && r.start <= j < r.start + r.len
    ensures NonZeroCount(a, r.start) == NonZeroCount(a, j)
  {
    if j > 0 && a[j - 1] == 0 then
      var r := RunContaining(a, j - 1);
      NonZeroCountMonotone(a, j - 1, j);
      r
    else
      var r := Run(j, ZerosFrom(a, j));
      RunAtStart(a, j);
      r
  }

  /** A later run is filed under a larger id. */
  lemma RunIdsOrdered(a: seq<nat>, r1: Run, r2: Run)
    requires IsZeroRun(a, r1) && IsZeroRun(a, r2) && r1.start < r2.start
    ensures NonZeroCount(a, r1.start) < NonZeroCount(a, r2.start)
  {
    assert r1.start + r1.len <= r2.start - 1;
    NonZeroCountMonotone(a, r1.start, r2.start - 1);
    NonZeroCountMonotone(a, r2.start - 1, r2.start);
  }

  /** Every filed index is a zero group whose id is at most the final count. */
  lemma MembersBounded(a: seq<nat>, id: int)
    requires Members(a, |a|, id) != []
    ensures 0 <= id <= NonZeroCount(a, |a|)
  {
    var j := Members(a, |a|, id)[0];
    MembersSpec(a, |a|, id, j);
    NonZeroCountMonotone(a, j, |a|);
  }

  /** The scan files something iff some group is zero. */
  lemma MembersExist(a: seq<nat>, j: nat)
    requires j < |a| && a[j] == 0
    ensures Members(a, |a|, NonZeroCount(a, j)) != []
  {
    MembersSpec(a, |a|, NonZeroCount(a, j), j);
  }

  // ------------------------------------------------------- the selection

  /** The file the selection loop keeps after visiting ids below `n`: a
      file replaces the kept one only when it is strictly longer. */
  function BestUpTo(a: seq<nat>, n: nat): seq<nat>
  {
    if n == 0 then []
    else
      var kept := BestUpTo(a, n - 1);
      var file := Members(a, |a|, n - 1);
      if |file| > |kept| then file else kept
  }

  /** The earliest of the longest runs among those filed under an id below `n`. */
  ghost predicate ChosenBelow(a: seq<nat>, b: Run, n: nat)
  {
    && IsZeroRun(a, b) && NonZeroCount(a, b.start) < n
    && forall r :: IsZeroRun(a, r) && NonZeroCount(a, r.start) < n ==>
         r.len <= b.len && (r.len == b.len ==> b.start <= r.start)
  }

  /** A non-empty file is the run filed under its id. */
  lemma FileIsRun(a: seq<nat>, id: int)
    requires Members(a, |a|, id) != []
    ensures exists r :: IsZeroRun(a, r) && NonZeroCount(a, r.start) == id
                        && Members(a, |a|, id) == Range(r.start, r.start + r.len)
  {
    var j := Members(a, |a|, id)[0];
    MembersSpec(a, |a|, id, j);
    var r := RunContaining(a, j);
    MembersOfRun(a, r);
  }

  /** Two runs filed under one id are the same run. */
  lemma RunOfId(a: seq<nat>, r1: Run, r2: Run)
    requires IsZeroRun(a, r1) && IsZeroRun(a, r2)
    requires NonZeroCount(a, r1.start) == NonZeroCount(a, r2.start)
    ensures r1 == r2
  {
    if r1.start < r2.start {
      RunIdsOrdered(a, r1, r2);
    } else if r2.start < r1.start {
      RunIdsOrdered(a, r2, r1);
    } else {
      RunIsFromStart(a, r1);
      RunIsFromStart(a, r2);
    }
  }

  /** What the kept file is after visiting the ids below `n`. */
  ghost predicate BestSpec(a: seq<nat>, n: nat)
  {
    && (BestUpTo(a, n) == [] ==> forall r :: IsZeroRun(a, r) ==> NonZeroCount(a, r.start) >= n)
    && (BestUpTo(a, n) != [] ==>
          exists b :: ChosenBelow(a, b, n) && BestUpTo(a, n) == Range(b.start, b.start + b.len))
  }

  lemma BestStepNoFile(a: seq<nat>, n: nat)
    requires n > 0 && BestSpec(a, n - 1) && Members(a, |a|, n - 1) == []
    ensures BestSpec(a, n)
  {
    forall r | IsZeroRun(a, r) && NonZeroCount(a, r.start) == n - 1
      ensures false
    {
      MembersOfRun(a, r);
    }
    var kept := BestUpTo(a, n - 1);
    if kept != [] {
      var b :| ChosenBelow(a, b, n - 1) && kept == Range(b.start, b.start + b.len);
      assert ChosenBelow(a, b, n);
    }
  }

  lemma BestStepFile(a: seq<nat>, n: nat, r: Run)
    requires n > 0 && BestSpec(a, n - 1)
    requires IsZeroRun(a, r) && NonZeroCount(a, r.start) == n - 1
    requires Members(a, |a|, n - 1) == Range(r.start, r.start + r.len)
    ensures BestSpec(a, n)
  {
    forall r' | IsZeroRun(a, r') && NonZeroCount(a, r'.start) == n - 1
      ensures r' == r
    {
      RunOfId(a, r, r');
    }
    if BestUpTo(a, n - 1) == [] {
      assert ChosenBelow(a, r, n);
    } else {
      var b :| ChosenBelow(a, b, n - 1) && BestUpTo(a, n - 1) == Range(b.start, b.start + b.len);
      FileAgainstKept(a, n, r, b);
    }
  }

  /** The file of id `n - 1` against a kept run chosen below it. */
  lemma FileAgainstKept(a: seq<nat>, n: nat, r: Run, b: Run)
    requires n > 0 && ChosenBelow(a, b, n - 1) && BestUpTo(a, n - 1) == Range(b.start, b.start + b.len)
    requires IsZeroRun(a, r) && NonZeroCount(a, r.start) == n - 1
    requires Members(a, |a|, n - 1) == Range(r.start, r.start + r.len)
    requires forall r' :: IsZeroRun(a, r') && NonZeroCount(a, r'.start) == n - 1 ==> r' == r
    ensures BestSpec(a, n)
  {
    if b.start > r.start {
      RunIdsOrdered(a, r, b);
    }
    if r.len > b.len {
      assert ChosenBelow(a, r, n);
    } else {
      assert ChosenBelow(a, b, n);
    }
  }

  lemma {:induction false} BestUpToSpec(a: seq<nat>, n: nat)
    ensures BestSpec(a, n)
  {
    if n > 0 {
      BestUpToSpec(a, n - 1);
      if Members(a, |a|, n - 1) == [] {
        BestStepNoFile(a, n);
      } else {
        FileIsRun(a, n - 1);
        var r :| IsZeroRun(a, r) && NonZeroCount(a, r.start) == n - 1
                 && Members(a, |a|, n - 1) == Range(r.start, r.start + r.len);
        BestStepFile(a, n, r);
      }
    }
  }

  lemma AllRunsFiled(a: seq<nat>)
    ensures forall r :: IsZeroRun(a, r) ==> NonZeroCount(a, r.start) < NonZeroCount(a, |a|) + 1
  {
    forall r | IsZeroRun(a, r)
      ensures NonZeroCount(a, r.start) < NonZeroCount(a, |a|) + 1
    {
      NonZeroCountMonotone(a, r.start, |a|);
    }
  }

  /** Below the final count plus one, chosen-below is chosen. */
  lemma ChosenBelowAll(a: seq<nat>, b: Run)
    requires ChosenBelow(a, b, NonZeroCount(a, |a|) + 1)
    ensures IsChosenRun(a, b)
  {
    AllRunsFiled(a);
  }

  lemma BestWithoutZero(a: seq<nat>)
    requires LongestZeroRun(a).None?
    ensures BestUpTo(a, NonZeroCount(a, |a|) + 1) == []
  {
    var n := NonZeroCount(a, |a|) + 1;
    BestUpToSpec(a, n);
    if BestUpTo(a, n) != [] {
      var b :| ChosenBelow(a, b, n) && BestUpTo(a, n) == Range(b.start, b.start + b.len);
      LongestZeroRunSpec(a);
      RunStartsWithZero(a, b);
      assert false;
    }
  }

  /** A run's first element is a zero of the sequence. */
  lemma RunStartsWithZero(a: seq<nat>, r: Run)
    ensures IsZeroRun(a, r) ==> r.start < |a| && a[r.start] == 0
  {
  }

  lemma BestWithZero(a: seq<nat>)
    requires LongestZeroRun(a).Some?
    ensures var r := LongestZeroRun(a).value;
      BestUpTo(a, NonZeroCount(a, |a|) + 1) == Range(r.start, r.start + r.len)
  {
    LongestZeroRunSpec(a);
    BestIsChosen(a, LongestZeroRun(a).value);
  }

  /** The file the selection keeps is the chosen run. */
  lemma BestIsChosen(a: seq<nat>, r: Run)
    requires IsChosenRun(a, r)
    ensures BestUpTo(a, NonZeroCount(a, |a|) + 1) == Range(r.start, r.start + r.len)
  {
    var n := NonZeroCount(a, |a|) + 1;
    NonZeroCountMonotone(a, r.start, |a|);
    var b := KeptRun(a, r, n);
    ChosenBelowAll(a, b);
    ChosenRunUnique(a, r, b);
  }

  /** With a zero run filed below `n`, the selection keeps the file of a run chosen below `n`. */
  lemma KeptRun(a: seq<nat>, r: Run, n: nat) returns (b: Run)
    requires IsZeroRun(a, r) && NonZeroCount(a, r.start) < n
    ensures ChosenBelow(a, b, n) && BestUpTo(a, n) == Range(b.start, b.start + b.len)
  {
    BestUpToSpec(a, n);
    assert BestUpTo(a, n) != [];
    b :| ChosenBelow(a, b, n) && BestUpTo(a, n) == Range(b.start, b.start + b.len);
  }
}
