/**
 What is on which level, over all runs of the store: files carry the number of their level, and a local
 level-0 file is deleted exactly when its copy on the replica is.
 */
module StoreLabels {
  import opened LtxFiles
  import opened RestorePlan
  import opened LevelStore
  import opened LevelStoreRuns
  import opened TimeRestore

  // A step stores only files with the number of their level.
  lemma LevelOfStep(st: Store, step: Step, l: nat, f: LtxFile)
    requires Enabled(st, step) && l <= SNAPSHOT_LEVEL && |Next(st, step).levels| == SNAPSHOT_LEVEL + 1
    requires f in Next(st, step).levels[l]
    ensures f in st.levels[l] || f.level == l
  {
    if step.L0Retention? || step.SnapshotRetention? || step.LevelRetention? {
      FilesOfStep(st, step, l, f);
    }
  }

  // In every run every file carries the number of the level it is stored on.
  lemma {:induction false} EveryFileHasItsLevel(run: seq<Store>, steps: seq<Step>, i: nat, l: nat, f: LtxFile)
    requires IsRun(run, steps) && i < |run| && l <= SNAPSHOT_LEVEL && |run[i].levels| == SNAPSHOT_LEVEL + 1
    requires f in run[i].levels[l]
    ensures f.level == l
    decreases i
  {
    if i == 0 {
      assert false;
    } else {
      FilesAt(run, steps, i - 1, l, f);
      LevelOfStep(run[i - 1], steps[i - 1], l, f);
      if f in run[i - 1].levels[l] {
        EveryFileHasItsLevel(run, steps, i - 1, l, f);
      }
    }
  }

  // The level holds the file of transaction t.
  ghost predicate HasFile(l0: seq<LtxFile>, t: nat) {
    exists f :: f in l0 && f.minTXID == t
  }

  // Level-0 retention deletes a local file if and only if it deletes the copy on the replica.
  lemma LocalFollowsRemote(st: Store, threshold: int, t: nat)
    requires Reachable(st) && Enabled(st, L0Retention(threshold))
    ensures var st' := Next(st, L0Retention(threshold));
            t in st'.local <==> t in st.local && (HasFile(st.levels[0], t) ==> HasFile(st'.levels[0], t))
  {
    ReachableInv(st);
    var l0, kept := st.levels[0], L0Kept(st.levels[0], Top(st.levels[1]), threshold);
    L0KeptIn(l0, Top(st.levels[1]), threshold);
    if HasFile(l0, t) {
      var f :| f in l0 && f.minTXID == t;
      forall g | g in l0 && g.minTXID == t ensures g == f {
        var i, j :| 0 <= i < |l0| && 0 <= j < |l0| && l0[i] == f && l0[j] == g;
        assert i == j;
      }
    }
  }
}
