/** `threadme` and `Worker.run`: the input files are handed to at most
    `threadlimit` workers at a time, last file first, each worker knowing
    the file's index (Barnett-PointConverter.py, lines 287-333). Processes,
    the print lock and the join timeout are not modelled: which workers
    have finished when the pool is polled is an input. */
module Dispatch {
  import opened Naming

  /** One worker: the file it converts and that file's index in the input
      list (`srcfile`, `countfile`). */
  datatype Job = Job(srcfile: string, countfile: nat)

  /** `range(n)` */
  function Range(n: nat): (r: seq<nat>)
    ensures |r| == n
    ensures forall i | 0 <= i < n :: r[i] == i
  {
    if n == 0 then [] else Range(n - 1) + [n - 1]
  }

  /** The jobs made by popping the last `k` of `files` in lockstep with
      their indices: last first. */
  function Popped(files: seq<string>, k: nat): (r: seq<Job>)
    requires k <= |files|
    ensures |r| == k
    ensures forall j | 0 <= j < k :: r[j] == Job(files[|files| - 1 - j], |files| - 1 - j)
  {
    if k == 0 then [] else Popped(files, k - 1) + [Job(files[|files| - k], |files| - k)]
  }

  function Min(a: nat, b: nat): nat { if a < b then a else b }

  /** Every input file is started exactly once, paired with its own index,
      and files are started last to first. */
  lemma {:induction false} AllStartedOnce(infiles: seq<string>)
    ensures var all := Popped(infiles, |infiles|);
      (forall i | 0 <= i < |infiles| :: all[|infiles| - 1 - i] == Job(infiles[i], i)) &&
      (forall j, j' | 0 <= j < j' < |all| :: all[j].countfile > all[j'].countfile)
  {
  }

  /** Two jobs of one run never write the same cache file. */
  lemma {:induction false} JobNamesDistinct(particlesName: string, startframe: int, a: Job, b: Job)
    requires a.countfile != b.countfile
    ensures FileName(particlesName, Increment(startframe, a.countfile))
         != FileName(particlesName, Increment(startframe, b.countfile))
  {
    OutputNamesDistinct(particlesName, startframe, a.countfile, b.countfile);
  }

  /** The bookkeeping `threadme` keeps: pending files are a prefix of the
      input with their indices alongside, the workers started so far are
      the popped suffix in popping order, and the pool holds at most
      `threadLimit` of them, no file twice. */
  ghost predicate Consistent(infiles: seq<string>, threadLimit: nat, srcfiles: seq<string>,
                             countfiles: seq<nat>, pool: seq<Job>, launched: seq<Job>)
  {
    0 < threadLimit &&
    |srcfiles| <= |infiles| &&
    srcfiles == infiles[..|srcfiles|] &&
    countfiles == Range(|srcfiles|) &&
    launched == Popped(infiles, |infiles| - |srcfiles|) &&
    |pool| <= threadLimit &&
    (forall j | 0 <= j < |pool| :: pool[j] in launched) &&
    (forall j, j' | 0 <= j < j' < |pool| :: pool[j].countfile != pool[j'].countfile)
  }

  /** Every started worker's index is at least the number of pending files. */
  lemma {:induction false} LaunchedIndices(infiles: seq<string>, m: nat, x: Job)
    requires m <= |infiles|
    requires x in Popped(infiles, m)
    ensures |infiles| - m <= x.countfile < |infiles|
  {
  }

  /** Popping one more file: the worker made for it is the last input file
      still pending, with its own index, and the bookkeeping stays
      consistent. */
  lemma {:induction false} AdmitStep(infiles: seq<string>, threadLimit: nat, srcfiles: seq<string>,
                                     countfiles: seq<nat>, pool: seq<Job>, launched: seq<Job>)
    requires Consistent(infiles, threadLimit, srcfiles, countfiles, pool, launched)
    requires |srcfiles| > 0 && |pool| < threadLimit
    ensures var w := Job(srcfiles[|srcfiles| - 1], countfiles[|countfiles| - 1]);
      w == Job(infiles[|srcfiles| - 1], |srcfiles| - 1) &&
      Consistent(infiles, threadLimit, srcfiles[..|srcfiles| - 1], countfiles[..|countfiles| - 1],
                 pool + [w], launched + [w])
  {
    var n := |srcfiles|;
    var w := Job(srcfiles[n - 1], countfiles[n - 1]);
    assert countfiles[..n - 1] == Range(n - 1);
    assert Popped(infiles, |infiles| - (n - 1)) == launched + [w];
    var p := pool + [w];
    forall j | 0 <= j < |pool| ensures pool[j].countfile != w.countfile {
      LaunchedIndices(infiles, |infiles| - n, pool[j]);
    }
  }

  /** Where an admission round stands, started from pending files `src0`,
      pool `pool0` and started workers `launched0`: the pending files are a
      prefix of `src0` and the files popped from its end have joined both
      the pool and the started workers, last first. */
  ghost predicate Admitted(src0: seq<string>, pool0: seq<Job>, launched0: seq<Job>,
                           src: seq<string>, p: seq<Job>, l: seq<Job>)
  {
    |src| <= |src0| && src == src0[..|src|] &&
    p == pool0 + Popped(src0, |src0| - |src|) &&
    l == launched0 + Popped(src0, |src0| - |src|)
  }

  lemma {:induction false} AdmittedStep(src0: seq<string>, pool0: seq<Job>, launched0: seq<Job>,
                                        src: seq<string>, p: seq<Job>, l: seq<Job>)
    requires Admitted(src0, pool0, launched0, src, p, l) && |src| > 0
    ensures var w := Job(src[|src| - 1], |src| - 1);
      Admitted(src0, pool0, launched0, src[..|src| - 1], p + [w], l + [w])
  {
    var k := |src0| - |src|;
    var w := Job(src[|src| - 1], |src| - 1);
    assert src[|src| - 1] == src0[|src| - 1];
    assert Popped(src0, k + 1) == Popped(src0, k) + [w];
    assert pool0 + Popped(src0, k + 1) == (pool0 + Popped(src0, k)) + [w];
    assert launched0 + Popped(src0, k + 1) == (launched0 + Popped(src0, k)) + [w];
  }

  /** Taking one worker out of the pool keeps the bookkeeping consistent. */
  lemma {:induction false} RemoveStep(infiles: seq<string>, threadLimit: nat, srcfiles: seq<string>,
                                      countfiles: seq<nat>, pool: seq<Job>, launched: seq<Job>, i: nat)
    requires Consistent(infiles, threadLimit, srcfiles, countfiles, pool, launched)
    requires i < |pool|
    ensures Consistent(infiles, threadLimit, srcfiles, countfiles, pool[..i] + pool[i + 1..], launched)
  {
    var p := pool[..i] + pool[i + 1..];
    forall j | 0 <= j < |p| ensures p[j] == pool[if j < i then j else j + 1] { }
  }

  /** The pool after `for thr in threadpool: ... threadpool.remove(thr)`,
      from list index `i` on: a finished worker is removed and the walk
      moves to the next index, so the worker that slid into the removed
      one's place is not looked at in this round. */
  function SweepOf(p: seq<Job>, i: nat, finished: set<nat>): seq<Job>
    requires i <= |p| + 1
    decreases |p| + 1 - i
  {
    if i >= |p| then p
    else if p[i].countfile in finished then SweepOf(p[..i] + p[i + 1..], i + 1, finished)
    else SweepOf(p, i + 1, finished)
  }

  /** With no worker finished, the sweep leaves the pool as it is. */
  lemma {:induction false} SweepNoneFinished(p: seq<Job>, i: nat, finished: set<nat>)
    requires i <= |p|
    requires forall j | 0 <= j < |p| :: p[j].countfile !in finished
    ensures SweepOf(p, i, finished) == p
    decreases |p| - i
  {
    if i < |p| {
      SweepNoneFinished(p, i + 1, finished);
    }
  }

  /** Two finished workers side by side: the first is removed, and the
      second, moved into its place, survives the round. */
  lemma {:induction false} SweepSkipsNext(a: Job, b: Job, finished: set<nat>)
    requires a.countfile in finished && b.countfile in finished
    ensures SweepOf([a, b], 0, finished) == [b]
  {
    assert [a, b][..0] + [a, b][1..] == [b];
    assert SweepOf([b], 1, finished) == [b];
  }

  /** A finished worker with a running one behind it: only the finished one
      leaves, and the order is kept. */
  lemma {:induction false} SweepRemovesFinished(a: Job, b: Job, finished: set<nat>)
    requires a.countfile in finished && b.countfile !in finished
    ensures SweepOf([b, a], 0, finished) == [b]
  {
    assert SweepOf([b, a], 0, finished) == SweepOf([b, a], 1, finished);
    assert [b, a][..1] + [b, a][2..] == [b];
    assert SweepOf([b], 2, finished) == [b];
  }

  /** Where a walk over the pool stands after looking at index `i` of the
      current pool `p`, started from `p0`: what lies ahead is untouched,
      every worker left came from `p0`, every worker passed over is either
      still there or finished, and nothing was removed unless it had
      finished. */
  ghost predicate Walked(p0: seq<Job>, p: seq<Job>, i: nat, finished: set<nat>)
  {
    |p| <= |p0| && i <= |p| + 1 &&
    (i <= |p| ==> p[i..] == p0[i + (|p0| - |p|)..]) &&
    (i == |p| + 1 ==> |p| < |p0|) &&
    (forall j | 0 <= j < |p| :: p[j] in p0) &&
    (forall j | 0 <= j < |p0| && j < i + (|p0| - |p|) :: p0[j] in p || p0[j].countfile in finished) &&
    (|p| == |p0| ==> p == p0 && forall j | 0 <= j < i && j < |p0| :: p0[j].countfile !in finished)
  }

  lemma {:induction false} WalkKeep(p0: seq<Job>, p: seq<Job>, i: nat, finished: set<nat>)
    requires Walked(p0, p, i, finished) && i < |p| && p[i].countfile !in finished
    ensures Walked(p0, p, i + 1, finished)
  {
    var r := |p0| - |p|;
    assert p[i] == p0[i + r];
    assert p[i + 1..] == p[i..][1..];
  }

  lemma {:induction false} WalkRemove(p0: seq<Job>, p: seq<Job>, i: nat, finished: set<nat>)
    requires Walked(p0, p, i, finished) && i < |p| && p[i].countfile in finished
    ensures Walked(p0, p[..i] + p[i + 1..], i + 1, finished)
  {
    var r := |p0| - |p|;
    var q := p[..i] + p[i + 1..];
    assert p[i] == p0[i + r];
    forall j | 0 <= j < |q| ensures q[j] == p[if j < i then j else j + 1] { }
    if i + 1 <= |q| {
      assert q[i + 1..] == p[i + 2..];
    }
    forall j | 0 <= j < |p0| && j < i + 1 + (r + 1) ensures p0[j] in q || p0[j].countfile in finished {
      if j < i + r {
        if p0[j] in p && p0[j] != p[i] {
          var k :| 0 <= k < |p| && p[k] == p0[j];
          assert q[if k < i then k else k - 1] == p0[j];
        }
      } else if j == i + r + 1 {
        assert p0[j] == p[i + 1];
        assert q[i] == p0[j];
      }
    }
  }

  /** The rest of a walk that stands at `Walked(p0, p, i, finished)` ends
      with a pool drawn from `p0` that keeps every running worker, and
      that has lost a worker if any of `p0` had finished. */
  lemma {:induction false} SweepWalk(p0: seq<Job>, p: seq<Job>, i: nat, finished: set<nat>)
    requires Walked(p0, p, i, finished)
    ensures var q := SweepOf(p, i, finished);
      (forall j | 0 <= j < |q| :: q[j] in p0) &&
      (forall j | 0 <= j < |p0| :: p0[j] in q || p0[j].countfile in finished) &&
      ((exists j | 0 <= j < |p0| :: p0[j].countfile in finished) ==> |q| < |p0|)
    decreases |p| + 1 - i
  {
    if i < |p| {
      if p[i].countfile in finished {
        WalkRemove(p0, p, i, finished);
        SweepWalk(p0, p[..i] + p[i + 1..], i + 1, finished);
      } else {
        WalkKeep(p0, p, i, finished);
        SweepWalk(p0, p, i + 1, finished);
      }
    }
  }

  /** One sweep removes only finished workers, keeps every running one, and
      removes at least one worker when any has finished. */
  lemma {:induction false} SweepOfSpec(p: seq<Job>, finished: set<nat>)
    ensures var q := SweepOf(p, 0, finished);
      (forall j | 0 <= j < |q| :: q[j] in p) &&
      (forall j | 0 <= j < |p| :: p[j] in q || p[j].countfile in finished) &&
      ((exists j | 0 <= j < |p| :: p[j].countfile in finished) ==> |q| < |p|)
  {
    SweepWalk(p, p, 0, finished);
  }

  class Dispatcher {
    const infiles: seq<string>
    const threadLimit: nat
    /** Files not yet handed to a worker, and their indices. */
    var srcfiles: seq<string>
    var countfiles: seq<nat>
    /** Workers started and not yet seen finished. */
    var pool: seq<Job>
    /** Every worker started so far, in order. */
    var launched: seq<Job>

    ghost predicate Valid()
      reads this
    {
      Consistent(infiles, threadLimit, srcfiles, countfiles, pool, launched)
    }

    /** Lines 315-319: `assert threadlimit > 0`, then every file pending
        and no worker running. */
    constructor(infiles: seq<string>, threadLimit: nat)
      requires threadLimit > 0
      ensures Valid()
      ensures this.infiles == infiles && this.threadLimit == threadLimit
      ensures srcfiles == infiles && countfiles == Range(|infiles|)
      ensures pool == [] && launched == []
    {
      this.infiles := infiles;
      this.threadLimit := threadLimit;
      srcfiles := infiles;
      countfiles := Range(|infiles|);
      pool := [];
      launched := [];
    }

    /** Lines 321-329: start workers for the last pending files until none
        is pending or the pool is full. */
    method Admit()
      requires Valid()
      modifies this
      ensures Valid()
      ensures var k := Min(|old(srcfiles)|, threadLimit - |old(pool)|);
        srcfiles == old(srcfiles)[..|old(srcfiles)| - k] &&
        pool == old(pool) + Popped(old(srcfiles), k) &&
        launched == old(launched) + Popped(old(srcfiles), k)
      ensures srcfiles == [] || |pool| == threadLimit
    {
      var src0, pool0, launched0 := srcfiles, pool, launched;
      var src, counts, p, l := srcfiles, countfiles, pool, launched;
      while |src| > 0 && |p| < threadLimit
        invariant Consistent(infiles, threadLimit, src, counts, p, l)
        invariant Admitted(src0, pool0, launched0, src, p, l)
        decreases |src|
      {
        AdmitStep(infiles, threadLimit, src, counts, p, l);
        AdmittedStep(src0, pool0, launched0, src, p, l);
        var countfile := counts[|counts| - 1];
        counts := counts[..|counts| - 1];
        var file := src[|src| - 1];
        src := src[..|src| - 1];
        var wrkr := Job(file, countfile);
        p := p + [wrkr];
        l := l + [wrkr];
      }
      srcfiles, countfiles, pool, launched := src, counts, p, l;
    }

    /** Lines 330-333: walk the pool and remove every worker that has
        finished. As in the source, the walk moves on after a removal, so
        the worker behind a removed one is only looked at in the next
        round. */
    method Sweep(finished: set<nat>)
      requires Valid()
      modifies this
      ensures Valid()
      ensures srcfiles == old(srcfiles) && countfiles == old(countfiles) && launched == old(launched)
      ensures forall j | 0 <= j < |pool| :: pool[j] in old(pool)
      ensures forall j | 0 <= j < |old(pool)| :: old(pool)[j] in pool || old(pool)[j].countfile in finished
      ensures (exists j | 0 <= j < |old(pool)| :: old(pool)[j].countfile in finished) ==> |pool| < |old(pool)|
      ensures pool == SweepOf(old(pool), 0, finished)
    {
      var p := pool;
      var p0 := pool;
      var i := 0;
      while i < |p|
        invariant Consistent(infiles, threadLimit, srcfiles, countfiles, p, launched)
        invariant Walked(p0, p, i, finished)
        invariant SweepOf(p, i, finished) == SweepOf(p0, 0, finished)
        invariant unchanged(this)
        decreases |p| - i + 1
      {
        if p[i].countfile in finished {
          RemoveStep(infiles, threadLimit, srcfiles, countfiles, p, launched, i);
          WalkRemove(p0, p, i, finished);
          p := p[..i] + p[i + 1..];
        } else {
          WalkKeep(p0, p, i, finished);
        }
        i := i + 1;
      }
      pool := p;
    }

    /** Lines 320-333: rounds of admission and polling while files are
        pending or workers are running; `schedule[r]` says which workers
        have finished when the pool is polled in round `r`. Ends when all
        work is done or the schedule runs out. */
    method Run(schedule: seq<set<nat>>) returns (rounds: nat)
      requires Valid()
      modifies this
      ensures Valid()
      ensures rounds <= |schedule|
      ensures rounds < |schedule| ==> srcfiles == [] && pool == []
      ensures srcfiles == [] ==> launched == Popped(infiles, |infiles|)
    {
      rounds := 0;
      while rounds < |schedule| && (|srcfiles| > 0 || |pool| > 0)
        invariant Valid()
        invariant rounds <= |schedule|
      {
        Admit();
        Sweep(schedule[rounds]);
        rounds := rounds + 1;
      }
    }
  }

  /** `threadme(infiles, ..., threadlimit)`: the workers started, in order,
      and whether every file was converted within the schedule. When it
      finishes, file `infiles[i]` was started exactly once, with index `i`,
      last file first. */
  method Threadme(infiles: seq<string>, threadLimit: nat, schedule: seq<set<nat>>)
    returns (launched: seq<Job>, done: bool)
    requires threadLimit > 0
    ensures done ==> launched == Popped(infiles, |infiles|)
    ensures exists k | 0 <= k <= |infiles| :: launched == Popped(infiles, k)
  {
    var d := new Dispatcher(infiles, threadLimit);
    var rounds := d.Run(schedule);
    launched := d.launched;
    done := d.srcfiles == [] && d.pool == [];
  }
}
