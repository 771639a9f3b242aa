/** Copying several blocks within one memory, where sources and destinations may overlap. */
module CopySchedule {

  /** One copy: what is read, where it goes, and what has to be there in the end. */
  datatype Job = Job(src: nat, len: nat, dst: nat, want: seq<bv8>) {
    predicate Writes(x: nat) { dst <= x < dst + |want| }

    predicate Inside(size: nat) { src + len <= size && dst + |want| <= size }

    /* The destination misses the source of `o`. */
    predicate Spares(o: Job) { want == [] || dst + |want| <= o.src || o.src + o.len <= dst }

    predicate Apart(o: Job) { dst + |want| <= o.dst || o.dst + |o.want| <= dst }
  }

  /** All blocks lie in memory, and no two destinations overlap. */
  ghost predicate WellPlaced(jobs: seq<Job>, size: nat) {
    && (forall k :: 0 <= k < |jobs| ==> jobs[k].Inside(size))
    && (forall i, j :: 0 <= i < j < |jobs| ==> jobs[i].Apart(jobs[j]))
  }

  /** Address `x` is written by one of the jobs `a` up to `b`. */
  ghost predicate Touched(jobs: seq<Job>, a: nat, b: nat, x: nat)
    requires b <= |jobs|
  {
    exists k :: a <= k < b && jobs[k].Writes(x)
  }

  /** The jobs `a` up to `b` are done, and nothing else was written. */
  ghost predicate Progress(was: seq<bv8>, now: seq<bv8>, jobs: seq<Job>, a: nat, b: nat) {
    && a <= b <= |jobs| && |now| == |was|
    && (forall k :: a <= k < b ==>
      jobs[k].Inside(|was|) && now[jobs[k].dst..jobs[k].dst + |jobs[k].want|] == jobs[k].want)
    && (forall x :: 0 <= x < |was| && !Touched(jobs, a, b, x) ==> now[x] == was[x])
  }

  /** None of the jobs `a` up to `b` writes into the source of job `k`. */
  ghost predicate Spared(jobs: seq<Job>, a: nat, b: nat, k: nat)
    requires b <= |jobs| && k < |jobs|
  {
    forall i :: a <= i < b ==> jobs[i].Spares(jobs[k])
  }

  /** `after` is `before` with one job done. */
  ghost predicate Did(before: seq<bv8>, after: seq<bv8>, job: Job) {
    && job.Inside(|before|) && |after| == |before|
    && after[job.dst..job.dst + |job.want|] == job.want
    && forall x :: 0 <= x < |before| && !job.Writes(x) ==> after[x] == before[x]
  }

  /** The source of a job that the others spared is still what it was. */
  lemma SourceIntact(was: seq<bv8>, now: seq<bv8>, jobs: seq<Job>, a: nat, b: nat, k: nat)
    requires Progress(was, now, jobs, a, b) && k < |jobs| && Spared(jobs, a, b, k) && jobs[k].Inside(|was|)
    ensures now[jobs[k].src..jobs[k].src + jobs[k].len] == was[jobs[k].src..jobs[k].src + jobs[k].len]
  {
    forall x | jobs[k].src <= x < jobs[k].src + jobs[k].len
      ensures now[x] == was[x]
    {
      assert forall i :: a <= i < b ==> !jobs[i].Writes(x) || !jobs[i].Spares(jobs[k]);
    }
  }

  lemma NothingDone(was: seq<bv8>, jobs: seq<Job>, a: nat)
    requires a <= |jobs|
    ensures Progress(was, was, jobs, a, a)
  {
  }

  /* A slice in which no byte changed. */
  lemma SliceKept(s: seq<bv8>, t: seq<bv8>, lo: nat, hi: nat)
    requires lo <= hi <= |s| == |t| && forall x :: lo <= x < hi ==> s[x] == t[x]
    ensures s[lo..hi] == t[lo..hi]
  {
  }

  /** The next job, on either side of those already done. */
  lemma JobDone(was: seq<bv8>, before: seq<bv8>, after: seq<bv8>, jobs: seq<Job>, a: nat, b: nat, k: nat)
    requires WellPlaced(jobs, |was|) && Progress(was, before, jobs, a, b)
    requires k < |jobs| && (k == b || k + 1 == a) && Did(before, after, jobs[k])
    ensures Progress(was, after, jobs, if k == b then a else k, if k == b then b + 1 else b)
  {
    var c, d := if k == b then a else k, if k == b then b + 1 else b;
    forall i | c <= i < d
      ensures jobs[i].Inside(|was|) && after[jobs[i].dst..jobs[i].dst + |jobs[i].want|] == jobs[i].want
    {
      if i != k {
        assert if i < k then jobs[i].Apart(jobs[k]) else jobs[k].Apart(jobs[i]);
        SliceKept(before, after, jobs[i].dst, jobs[i].dst + |jobs[i].want|);
      }
    }
    forall x | 0 <= x < |was| && !Touched(jobs, c, d, x)
      ensures after[x] == was[x]
    {
      assert !jobs[k].Writes(x);
      assert forall i :: a <= i < b && jobs[i].Writes(x) ==> c <= i < d;
    }
  }

  /* ---- overwriting a part ---- */

  ghost function Overwrite(s: seq<bv8>, at: nat, data: seq<bv8>): (t: seq<bv8>)
    requires at + |data| <= |s|
    ensures |t| == |s|
  {
    s[..at] + data + s[at + |data|..]
  }

  lemma Overwritten(s: seq<bv8>, at: nat, data: seq<bv8>)
    requires at + |data| <= |s|
    ensures var t := Overwrite(s, at, data);
      t[at..at + |data|] == data && forall x :: 0 <= x < |s| && !(at <= x < at + |data|) ==> t[x] == s[x]
  {
  }

  lemma OverwriteIs(was: seq<bv8>, now: seq<bv8>, at: nat, data: seq<bv8>)
    requires |now| == |was| && at + |data| <= |was|
    requires forall x :: 0 <= x < |was| ==> now[x] == if at <= x < at + |data| then data[x - at] else was[x]
    ensures now == Overwrite(was, at, data)
  {
  }
}
