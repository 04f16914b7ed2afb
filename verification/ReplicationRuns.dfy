/** What the steps of the replication model achieve: which replicas each step leaves readable, that a rebuild comes to
    its end and promotes the new replica, and that a snapshot shows the volume of the moment it was taken.
 */
module ReplicationRuns {
  import opened Layers
  import opened SnapshotTree
  import opened Controllers
  import opened Replication

  // ----- modes -----

  /** The replicas that are readable after each step: only failures and removals end that, only a promotion begins
      it. */
  lemma StepReadable(s: Sys, step: Step)
    requires Inv(s) && Enabled(s, step)
    ensures step.Write? || step.TakeSnapshot? ==> Readable(Apply(s, step)) == Readable(s) - step.broken.Keys
    ensures step.Fail? || step.Remove? ==> Readable(Apply(s, step)) == Readable(s) - {step.a}
    ensures step.Verify? ==> Readable(Apply(s, step)) == Readable(s) + {step.a}
    ensures !(step.Write? || step.TakeSnapshot? || step.Fail? || step.Remove? || step.Verify?) ==>
              Readable(Apply(s, step)) == Readable(s)
  {
    hide Inv, Shows;
    if step.Write? || step.TakeSnapshot? {
      ErrorsOnly(s.modes, step.broken.Keys);
    }
  }

  /** A write inside the volume can always be made while a replica is readable, whatever breaks, and it is acknowledged
      if and only if a readable replica does not break; the volume then has it. */
  lemma WriteAcknowledgedIff(s: Sys, off: nat, buf: seq<byte>, reader: Addr, broken: map<Addr, Rep>)
    requires Inv(s) && reader in Readable(s) && 0 < |buf| && off + |buf| <= |s.vol| * 4096
    requires broken.Keys <= Writers(s.modes) && SourceStays(s, broken)
    ensures var step := Write(off, buf, reader, broken);
            && Enabled(s, step) && (Acknowledged(s, step) <==> Readable(s) - broken.Keys != {})
            && Inv(Apply(s, step)) && Apply(s, step).vol == SpliceAll(s.vol, off, buf)
            && (forall a | a in Readable(s) - broken.Keys ::
                  a in Readable(Apply(s, step)) && Shows(Apply(s, step).reps[a], SpliceAll(s.vol, off, buf)))
  {
    hide Shows, NewLayersAgree, TargetOk, SpliceAll;
    var step := Write(off, buf, reader, broken);
    StepReadable(s, step);
    WriteKeeps(s, step);
  }

  /** The replicas that are being rebuilt after each step. */
  lemma StepRebuilding(s: Sys, step: Step)
    requires Inv(s) && Enabled(s, step)
    ensures step.Write? || step.TakeSnapshot? ==> Rebuilding(Apply(s, step)) == Rebuilding(s) - step.broken.Keys
    ensures step.Fail? || step.Remove? ==> Rebuilding(Apply(s, step)) == Rebuilding(s) - {step.a}
    ensures step.AddReplica? ==> Rebuilding(Apply(s, step)) == {step.a}
    ensures step.Verify? ==> Rebuilding(Apply(s, step)) == {}
    ensures !(step.Write? || step.TakeSnapshot? || step.Fail? || step.Remove? || step.AddReplica? || step.Verify?) ==>
              Rebuilding(Apply(s, step)) == Rebuilding(s)
  {
    hide Shows, NewLayersAgree, TargetOk;
    if step.Write? || step.TakeSnapshot? {
      ErrorsOnly(s.modes, step.broken.Keys);
    } else if step.Verify? {
      VerifyKeeps(s, step.a, step.rw);
    }
  }

  // ----- a rebuild from its preparation to the promotion -----

  lemma RunCons(s: Sys, step: Step, states: seq<Sys>, steps: seq<Step>)
    requires Inv(s) && Enabled(s, step) && IsRun(states, steps) && states[0] == Apply(s, step)
    ensures IsRun([s] + states, [step] + steps)
  {
    hide Shows, NewLayersAgree, TargetOk, Enabled, Apply;
    var states', steps' := [s] + states, [step] + steps;
    forall i | 0 <= i < |steps'| && Inv(states'[i])
      ensures Enabled(states'[i], steps'[i]) && states'[i + 1] == Apply(states'[i], steps'[i])
    {
      if i > 0 {
        assert states'[i] == states[i - 1] && steps'[i] == steps[i - 1] && states'[i + 1] == states[i];
      }
    }
  }

  lemma RunSnoc(states: seq<Sys>, steps: seq<Step>, step: Step)
    requires IsRun(states, steps) && Inv(states[|steps|]) && Enabled(states[|steps|], step)
    ensures IsRun(states + [Apply(states[|steps|], step)], steps + [step])
  {
    hide Inv, Enabled, Apply;
  }

  /** A step of the copying: the new replica gets the disk, and one disk less is pending. */
  lemma CopyStep(s: Sys, a: Addr, n: DiskName)
    requires Inv(s) && Enabled(s, Copy(n)) && a in Rebuilding(s)
    ensures var s', src := Apply(s, Copy(n)), s.reps[s.rebuild.src];
            && Inv(s') && s' == s.(reps := s.reps[a := s'.reps[a]],
                                   rebuild := s.rebuild.(pending := s'.rebuild.pending))
            && s'.rebuild.pending == s.rebuild.pending - {n} && SameDisk(s'.reps[a], src, n)
            && s'.reps[a].disks.Keys == s.reps[a].disks.Keys + {n}
            && s'.reps[a].parent == s.reps[a].parent
  {
    CopyKeeps(s, n);
    hide Shows, NewLayersAgree;
    assert TargetOk(s, a);
    assert SameDisk(s.reps[s.rebuild.src], s.rebuild.target, n);
  }

  /** The copying comes to an end with nothing pending. */
  lemma {:induction false} CopyAll(s: Sys, a: Addr) returns (states: seq<Sys>, steps: seq<Step>)
    requires Inv(s) && a in Rebuilding(s) && s.rebuild.Copying? && s.rebuild.src in s.reps
    ensures |states| == |steps| + 1 && IsRun(states, steps) && states[0] == s
    ensures forall step | step in steps :: step.Copy?
    ensures Inv(states[|steps|]) && AllCopied(s, states[|steps|], a)
    decreases |s.rebuild.pending|
  {
    hide Shows, NewLayersAgree, TargetOk, Enabled, Apply, IsRun, SameDisk;
    if s.rebuild.pending == {} {
      states, steps := [s], [];
      NoRun(s);
    } else {
      var n :| n in s.rebuild.pending;
      CanCopy(s, a, n);
      CopyStep(s, a, n);
      var s1 := Apply(s, Copy(n));
      hide Inv, AllCopied;
      states, steps := CopyAll(s1, a);
      CopiedMore(s, s1, states[|steps|], a, n);
      RunCons(s, Copy(n), states, steps);
      states, steps := [s] + states, [Copy(n)] + steps;
    }
  }

  /** Nothing is pending any more; the new replica has the disks that were, and nothing else has changed. */
  ghost predicate AllCopied(s: Sys, s': Sys, a: Addr)
    requires a in s.reps && s.rebuild.Copying?
  {
    && s'.rebuild == s.rebuild.(pending := {}) && s' == s.(reps := s'.reps, rebuild := s'.rebuild)
    && a in s'.reps && s'.reps == s.reps[a := s'.reps[a]]
    && s'.reps[a].disks.Keys == s.reps[a].disks.Keys + s.rebuild.pending
  }

  lemma CopiedMore(s: Sys, s1: Sys, s2: Sys, a: Addr, n: DiskName)
    requires a in s.reps && a in s1.reps && s.rebuild.Copying? && s1.rebuild.Copying? && n in s.rebuild.pending
    requires s1 == s.(reps := s.reps[a := s1.reps[a]], rebuild := s.rebuild.(pending := s.rebuild.pending - {n}))
    requires s1.reps[a].disks.Keys == s.reps[a].disks.Keys + {n}
    requires AllCopied(s1, s2, a)
    ensures AllCopied(s, s2, a)
  {
    assert s.rebuild.pending == {n} + s1.rebuild.pending;
  }

  lemma NoRun(s: Sys)
    requires Inv(s)
    ensures IsRun([s], [])
  {
    hide Inv;
  }

  lemma CanCopy(s: Sys, a: Addr, n: DiskName)
    requires Inv(s) && a in Rebuilding(s) && s.rebuild.Copying? && s.rebuild.src in s.reps && n in s.rebuild.pending
    ensures Enabled(s, Copy(n)) && s.rebuild.src != a
  {
    SourceOther(s, a);
    hide Shows, NewLayersAgree, TargetOk;
  }

  lemma SourceOther(s: Sys, a: Addr)
    requires Inv(s) && a in Rebuilding(s) && s.rebuild.Copying?
    ensures s.rebuild.src != a
  {
    hide Shows, NewLayersAgree;
    assert TargetOk(s, a);
  }

  /** No file of the new replica that it does not know is missing on the replica that gives the list: known disks
      that are missing there are removed when the rebuild is prepared, others are not. */
  ghost predicate NoneLeftOver(s: Sys, a: Addr, list: Addr)
    requires a in s.reps && list in s.reps
  {
    forall n | n in s.reps[a].disks && n !in s.known :: n in s.reps[list].disks
  }

  /** A rebuild runs to its end: prepared, copied and reloaded, the new replica shows the volume.  It can then be
      promoted if and only if no unknown file was left over in it, and the promotion makes it readable. */
  lemma RebuildCompletes(s: Sys, a: Addr, list: Addr, src: Addr) returns (states: seq<Sys>, steps: seq<Step>)
    requires Inv(s) && Enabled(s, Prepare(a, list, src))
    ensures IsRun(states, steps) && states[0] == s && 2 <= |steps| && steps[0] == Prepare(a, list, src)
    ensures steps[|steps| - 1] == Reload(a) && forall i | 1 <= i < |steps| - 1 :: steps[i].Copy?
    ensures var s' := states[|steps|];
            && Inv(s') && s'.vol == s.vol && s'.modes == s.modes && Shows(s'.reps[a], s.vol)
            && (Enabled(s', Verify(a, list)) <==> NoneLeftOver(s, a, list))
            && (NoneLeftOver(s, a, list) ==>
                  var s2 := Apply(s', Verify(a, list));
                  Readable(s2) == Readable(s) + {a} && s2.vol == s.vol && Shows(s2.reps[a], s.vol))
  {
    hide Shows, NewLayersAgree, TargetOk;
    var s1 := Prepared(s, a, list, src);
    states, steps := CopyAndReload(s1, a);
    var s2 := states[|steps|];
    RunCons(s, Prepare(a, list, src), states, steps);
    states, steps := [s] + states, [Prepare(a, list, src)] + steps;
    PromotedIff(s, s1, s2, a, list);
  }

  lemma CopyAndReload(s: Sys, a: Addr) returns (states: seq<Sys>, steps: seq<Step>)
    requires Inv(s) && a in Rebuilding(s) && s.rebuild.Copying? && s.rebuild.src in s.reps
    ensures IsRun(states, steps) && states[0] == s && 0 < |steps|
    ensures steps[|steps| - 1] == Reload(a) && forall i | 0 <= i < |steps| - 1 :: steps[i].Copy?
    ensures Inv(states[|steps|]) && Reloaded(s, states[|steps|], a)
  {
    hide Shows, NewLayersAgree, TargetOk;
    states, steps := CopyAll(s, a);
    var s1 := states[|steps|];
    AllCopiedShows(s1, a);
    ReloadKeeps(s1, a);
    hide Inv, Enabled;
    RunSnoc(states, steps, Reload(a));
    states, steps := states + [Apply(s1, Reload(a))], steps + [Reload(a)];
    hide IsRun;
  }

  /** Everything pending is copied, and the new replica knows all its files. */
  ghost predicate Reloaded(s: Sys, s': Sys, a: Addr)
    requires a in s.reps && s.rebuild.Copying?
  {
    && s'.modes == s.modes && s'.vol == s.vol && s'.rebuild == s.rebuild.(pending := {})
    && a in s'.reps && s'.reps == s.reps[a := s'.reps[a]] && Shows(s'.reps[a], s.vol)
    && s'.reps[a].disks.Keys == s.reps[a].disks.Keys + s.rebuild.pending == s'.known
  }

  lemma PromotedIff(s: Sys, s1: Sys, s2: Sys, a: Addr, list: Addr)
    requires s.modes.Keys <= s.reps.Keys && a in Rebuilding(s) && list in Readable(s) && s1.rebuild.Copying?
    requires s1.modes == s.modes && s1.vol == s.vol && a in s1.reps && s1.reps == s.reps[a := s1.reps[a]]
    requires s1.reps[a].disks.Keys + s1.rebuild.pending == s.reps[list].disks.Keys <==> NoneLeftOver(s, a, list)
    requires Reloaded(s1, s2, a) && Inv(s2)
    ensures Enabled(s2, Verify(a, list)) <==> NoneLeftOver(s, a, list)
    ensures NoneLeftOver(s, a, list) ==>
              var s3 := Apply(s2, Verify(a, list));
              Readable(s3) == Readable(s) + {a} && s3.vol == s.vol && Shows(s3.reps[a], s.vol)
  {
    hide Shows, NewLayersAgree, TargetOk, NoneLeftOver;
    if NoneLeftOver(s, a, list) {
      VerifyKeeps(s2, a, list);
    }
  }

  /** The state after the preparation. */
  lemma Prepared(s: Sys, a: Addr, list: Addr, src: Addr) returns (s': Sys)
    requires Inv(s) && Enabled(s, Prepare(a, list, src))
    ensures s' == Apply(s, Prepare(a, list, src)) && Inv(s') && a in Rebuilding(s') && a != list
    ensures s'.rebuild.Copying? && s'.rebuild.src in s'.reps && s'.rebuild.pending == s.reps[list].disks.Keys
    ensures s'.modes == s.modes && s'.vol == s.vol && s'.reps == s.reps[a := s'.reps[a]]
    ensures s'.reps[a].disks.Keys + s'.rebuild.pending == s.reps[list].disks.Keys <==> NoneLeftOver(s, a, list)
  {
    PrepareKeeps(s, a, list, src);
    hide Shows, NewLayersAgree, TargetOk;
    s' := Apply(s, Prepare(a, list, src));
    var r, t := s.reps[a], s.reps[list];
    assert forall n :: n in s'.reps[a].disks <==> n in r.disks && (n in t.disks || n !in s.known);
    if s'.reps[a].disks.Keys + s'.rebuild.pending == t.disks.Keys {
      forall n | n in r.disks && n !in s.known ensures n in t.disks {
        assert n in s'.reps[a].disks.Keys + s'.rebuild.pending;
      }
    }
  }

  // ----- snapshots -----

  /** A replica seen from one of its snapshots: that disk's file in the place of the head. */
  function At(r: Rep, n: DiskName): Rep
    requires n in r.disks && n in r.store
  {
    Rep(r.disks, r.store, r.disks[n].parent, r.store[n], r.under)
  }

  ghost predicate SnapshotShows(r: Rep, n: DiskName, vol: seq<Sector>) {
    n in r.disks && n in r.store && Shows(At(r, n), vol)
  }

  /** A snapshot shows what the replica showed, and the older ones show what they did. */
  lemma SnapMakes(r: Rep, vol: seq<Sector>, name: DiskName)
    requires Shows(r, vol) && name !in r.disks && name != NoDisk
    ensures SnapshotShows(SnapRep(r, name), name, vol)
    ensures forall n, v | SnapshotShows(r, n, v) :: SnapshotShows(SnapRep(r, name), n, v)
  {
    ShownDisks(r, vol);
    hide Shows;
    var r' := SnapRep(r, name);
    SameShows(At(r', name), r, vol);
    forall n, v | SnapshotShows(r, n, v) ensures SnapshotShows(r', n, v) {
      SameShows(At(r', n), At(r, n), v);
    }
  }

  /** A snapshot step: every replica that stays readable and did not have the name now has a snapshot that shows the
      volume, with an empty head over it; and a replica that is being rebuilt has the same disk. */
  lemma SnapshotTaken(s: Sys, name: DiskName, broken: map<Addr, Rep>)
    requires Inv(s) && Enabled(s, TakeSnapshot(name, broken))
    ensures var s' := Apply(s, TakeSnapshot(name, broken));
            && Inv(s')
            && (forall a | a in Readable(s') && name !in s.reps[a].disks ::
                  && SnapshotShows(s'.reps[a], name, s.vol)
                  && s'.reps[a].parent == name && s'.reps[a].head == Layer(|s.vol| * 4096, map[]))
            && (Fresh(s, name) ==> forall a, w | a in Readable(s') && w in Rebuilding(s') ::
                  SameDisk(s'.reps[a], s'.reps[w], name) && s'.reps[w].parent == name)
  {
    SnapshotKeeps(s, name, broken);
    hide Shows, NewLayersAgree, TargetOk, OffPath;
    SnapshotTakers(s, name, broken);
    var s' := Apply(s, TakeSnapshot(name, broken));
    forall a | a in Readable(s') && name !in s.reps[a].disks
      ensures SnapshotShows(s'.reps[a], name, s.vol) && s.reps[a].head.size == |s.vol| * 4096
    {
      SnapMakes(s.reps[a], s.vol, name);
      ShownDisks(s.reps[a], s.vol);
    }
    if Fresh(s, name) {
      forall a, w | a in Readable(s') && w in Rebuilding(s') ensures SameDisk(s'.reps[a], s'.reps[w], name) {
        SameNewLayers(s, w, a);
      }
    }
  }

  /** The replicas that take part and do not break have the snapshot. */
  lemma SnapshotTakers(s: Sys, name: DiskName, broken: map<Addr, Rep>)
    requires Inv(s) && Enabled(s, TakeSnapshot(name, broken))
    ensures var s' := Apply(s, TakeSnapshot(name, broken));
            && s'.modes.Keys <= s'.reps.Keys
            && (forall a | a in Readable(s') ::
                  a in Readable(s) && (name !in s.reps[a].disks ==> s'.reps[a] == SnapRep(s.reps[a], name)))
            && (forall w | w in Rebuilding(s') ::
                  w in Rebuilding(s) && (Fresh(s, name) ==> s'.reps[w] == SnapRep(s.reps[w], name)))
            && (Fresh(s, name) ==> forall a | a in Readable(s) :: name !in s.reps[a].disks)
  {
    StepReadable(s, TakeSnapshot(name, broken));
    StepRebuilding(s, TakeSnapshot(name, broken));
    hide Shows, NewLayersAgree, TargetOk, OffPath, SnapRep;
    var s' := Apply(s, TakeSnapshot(name, broken));
    forall a | a in Readable(s') && name !in s.reps[a].disks ensures a in Takers(s, name) {
    }
    if Fresh(s, name) {
      forall a | a in Readable(s) ensures name !in s.reps[a].disks {
        assert a in Writers(s.modes);
      }
      forall w | w in Rebuilding(s') ensures w in Takers(s, name) {
      }
    }
  }

  lemma SameNewLayers(s: Sys, w: Addr, a: Addr)
    requires Inv(s) && w in Rebuilding(s) && a in Readable(s)
    ensures s.reps[a].head == s.reps[w].head && s.reps[a].parent == s.reps[w].parent
  {
    hide Shows, TargetOk;
    assert NewLayersAgree(s, w);
  }

  lemma SameSnapshots(r: Rep, r': Rep, n: DiskName, vol: seq<Sector>)
    requires r'.disks == r.disks && r'.store == r.store && r'.under == r.under && SnapshotShows(r, n, vol)
    ensures SnapshotShows(r', n, vol)
  {
  }

  /** No step changes what a snapshot of a readable replica shows, but for a purge of that replica. */
  lemma SnapshotStays(s: Sys, step: Step, a: Addr, n: DiskName, vol: seq<Sector>)
    requires Inv(s) && Enabled(s, step) && a in Readable(s) && a in Readable(Apply(s, step))
    requires SnapshotShows(s.reps[a], n, vol) && !(step.Compact? && step.a == a)
    ensures SnapshotShows(Apply(s, step).reps[a], n, vol)
  {
    StepReadable(s, step);
    hide TargetOk, Shows, NewLayersAgree, OffPath, SnapshotShows, SnapRep;
    var r, r' := s.reps[a], Apply(s, step).reps[a];
    match step
    case Write(off, buf, reader, broken) => SameSnapshots(r, r', n, vol);
    case TakeSnapshot(name, broken) =>
      if a in Takers(s, name) {
        SnapMakes(r, s.vol, name);
      }
    case AddReplica(b, rep, name) =>
      assert a in Writers(s.modes);
      SnapMakes(r, s.vol, name);
    case AddRefused(name, took) =>
      assert a in Writers(s.modes);
      SnapMakes(r, s.vol, name);
    case _ => assert r' == r;
  }

  /** The replica stays readable from state `i` to state `j` and is not purged between them. */
  ghost predicate InUse(states: seq<Sys>, steps: seq<Step>, i: nat, j: nat, a: Addr)
    requires j < |states| == |steps| + 1
  {
    && (forall k | i <= k <= j :: a in Readable(states[k]))
    && forall k | i <= k < j :: !(steps[k].Compact? && steps[k].a == a)
  }

  /** In every run a snapshot of a replica in use goes on showing what it shows. */
  lemma {:induction false} SnapshotKept(states: seq<Sys>, steps: seq<Step>, i: nat, j: nat, a: Addr, n: DiskName,
                                        vol: seq<Sector>)
    requires IsRun(states, steps) && i <= j < |states| == |steps| + 1 && Inv(states[i])
    requires InUse(states, steps, i, j, a)
    requires a in states[i].reps && SnapshotShows(states[i].reps[a], n, vol)
    ensures Inv(states[j]) && a in states[j].reps && SnapshotShows(states[j].reps[a], n, vol)
    decreases j
  {
    hide InUse, Inv, Enabled, Apply, SnapshotShows, IsRun;
    if i < j {
      UsedBefore(states, steps, i, j, a);
      SnapshotKept(states, steps, i, j - 1, a, n, vol);
      RunStep(states, steps, j - 1);
      SnapshotStays(states[j - 1], steps[j - 1], a, n, vol);
      Present(states[j], a);
    }
  }

  lemma UsedBefore(states: seq<Sys>, steps: seq<Step>, i: nat, j: nat, a: Addr)
    requires i < j < |states| == |steps| + 1 && InUse(states, steps, i, j, a)
    ensures InUse(states, steps, i, j - 1, a) && a in Readable(states[j - 1]) && a in Readable(states[j])
    ensures !(steps[j - 1].Compact? && steps[j - 1].a == a)
  {
  }

  lemma Present(s: Sys, a: Addr)
    requires Inv(s) && a in Readable(s)
    ensures a in s.reps
  {
  }

  /** In every run a snapshot shows the volume that was promised when it was taken, for as long as its replica is in
      use. */
  lemma SnapshotsPointInTime(states: seq<Sys>, steps: seq<Step>, i: nat, j: nat, a: Addr)
    requires IsRun(states, steps) && i < j < |states| && steps[i].TakeSnapshot? && InUse(states, steps, i, j, a)
    requires a in states[i].reps && steps[i].name !in states[i].reps[a].disks
    ensures a in states[j].reps && SnapshotShows(states[j].reps[a], steps[i].name, Promised(states, steps, i))
  {
    RunStep(states, steps, i);
    assert a in Readable(states[i]) && a in Readable(states[i + 1]) && InUse(states, steps, i + 1, j, a);
    hide IsRun, InUse, Enabled, Apply, Shows, TargetOk, NewLayersAgree, SnapshotShows, Promised;
    VolumePromised(states, steps, i);
    SnapshotTaken(states[i], steps[i].name, steps[i].broken);
    SnapshotKept(states, steps, i + 1, j, a, steps[i].name, Promised(states, steps, i));
  }

  lemma RunStep(states: seq<Sys>, steps: seq<Step>, k: nat)
    requires IsRun(states, steps) && k < |steps|
    ensures |states| == |steps| + 1 && Inv(states[k]) && Inv(states[k + 1])
    ensures Enabled(states[k], steps[k]) && states[k + 1] == Apply(states[k], steps[k])
  {
    RunsAgree(states, steps, k);
    RunsAgree(states, steps, k + 1);
    hide Shows, TargetOk, NewLayersAgree, Enabled, Apply;
  }

  /** A promoted replica has the snapshots of the target, and they show the same. */
  lemma PromotedSnapshots(s: Sys, a: Addr, rw: Addr, n: DiskName, vol: seq<Sector>)
    requires Inv(s) && Enabled(s, Verify(a, rw)) && SnapshotShows(s.rebuild.target, n, vol)
    ensures SnapshotShows(Apply(s, Verify(a, rw)).reps[a], n, vol)
  {
    hide Shows;
    var t, r := s.rebuild.target, s.reps[a];
    assert TargetOk(s, a) && NewLayersAgree(s, a);
    forall m | m in t.disks ensures SameDisk(r, t, m) {
      assert m in t.disks.Keys - s.rebuild.pending;
    }
    SameShows(At(r, n), At(t, n), vol);
  }
}
