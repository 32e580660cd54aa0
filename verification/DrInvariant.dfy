// Every step of the DR protocol keeps the invariant: one lemma per call of the run.

module DrInvariant {
  import opened Snapshots
  import opened HdfsTree
  import opened DrProtocol

  /** After a snapshot is added the site's latest number is the greater of the two. */
  lemma AddedSnapshot(snaps: map<Snapshot, Tree>, n: nat, content: Tree)
    ensures Latest(snaps[Numbered(n) := content].Keys) == if n > Latest(snaps.Keys) then n else Latest(snaps.Keys)
  {
    LatestAdd(snaps.Keys, n);
    assert snaps[Numbered(n) := content].Keys == snaps.Keys + {Numbered(n)};
  }

  /** Deleting a snapshot below the latest keeps the latest number. */
  lemma RemovedSnapshot(snaps: map<Snapshot, Tree>, id: Snapshot)
    ensures Latest((snaps - {id}).Keys) <= Latest(snaps.Keys)
    ensures id.Number() < Latest(snaps.Keys) ==> Latest((snaps - {id}).Keys) == Latest(snaps.Keys)
  {
    LatestRemove(snaps.Keys, id);
    assert (snaps - {id}).Keys == snaps.Keys - {id};
  }

  lemma InitInv(s: State)
    requires Init(s)
    ensures Inv(s)
  {
    forall n: nat ensures Numbered(n) !in s.dr.snaps { LatestAtLeast(s.dr.snaps.Keys, n); }
  }

  lemma UserWriteInv(s: State, t: State)
    requires Inv(s) && UserWrite(s, t)
    ensures Inv(t)
  {
  }

  lemma CrashInv(s: State, t: State)
    requires Inv(s) && Crash(s, t)
    ensures Inv(t)
  {
  }

  lemma BeginInv(s: State, t: State)
    requires Inv(s) && Begin(s, t)
    ensures Inv(t)
  {
    ListingEmpty(s.dr.live);
  }

  lemma DeleteMainInv(s: State, t: State)
    requires Inv(s) && DeleteMain(s, t)
    ensures Inv(t)
  {
    RemovedSnapshot(s.main.snaps, Numbered(s.pc.n));
  }

  lemma CreateMainInv(s: State, t: State)
    requires Inv(s) && CreateMain(s, t)
    ensures Inv(t)
  {
    var n := s.pc.n;
    AddedSnapshot(s.main.snaps, n, s.main.live);
    LatestAtLeast(s.dr.snaps.Keys, n);
  }

  lemma CopyInv(s: State, t: State)
    requires Inv(s) && Copy(s, t)
    ensures Inv(t)
  {
    var n := s.pc.n;
    match s.pc.kind
    case Full =>
      assert Overlay(s.main.snaps[Numbered(n)], map[]) == s.main.snaps[Numbered(n)];
    case Incremental =>
      ApplyDiffToBase(s.main.snaps[Numbered(n - 1)], s.main.snaps[Numbered(n)]);
  }

  lemma ReadLatestInv(s: State, t: State)
    requires Inv(s) && ReadLatest(s, t)
    ensures Inv(t)
    ensures t.pc == CreatingDr(s.pc.n)
  {
  }

  lemma CreateDrInv(s: State, t: State)
    requires Inv(s) && CreateDr(s, t)
    ensures Inv(t)
  {
    var n := s.pc.latest;
    AddedSnapshot(s.dr.snaps, n, s.dr.live);
  }

  /** What is compared is always the same content, so validation never raises. */
  lemma ComparesAlike(s: State)
    requires Inv(s)
    ensures s.pc.Comparing? ==> s.pc.latest >= 0 && RecoveryPoint(s, s.pc.latest)
  {
  }

  /** The lists never differ, so the run goes on to the clean-up. */
  lemma CompareInv(s: State, t: State)
    requires Inv(s) && Compare(s, t)
    ensures Inv(t)
    ensures t.pc == DeletingMainBase(s.pc.latest)
  {
    ComparesAlike(s);
  }

  lemma DeleteMainBaseInv(s: State, t: State)
    requires Inv(s) && DeleteMainBase(s, t)
    ensures Inv(t)
  {
    RemovedSnapshot(s.main.snaps, Numbered(s.pc.latest - 1));
  }

  lemma DeleteDrBaseInv(s: State, t: State)
    requires Inv(s) && DeleteDrBase(s, t)
    ensures Inv(t)
  {
    RemovedSnapshot(s.dr.snaps, Numbered(s.pc.latest - 1));
  }

  /** The invariant survives every step: user writes, crashes, failed copies and the run's own calls. */
  lemma NextInv(s: State, t: State)
    requires Inv(s) && Next(s, t)
    ensures Inv(t)
  {
    if UserWrite(s, t) { UserWriteInv(s, t); }
    else if Crash(s, t) { CrashInv(s, t); }
    else if Begin(s, t) { BeginInv(s, t); }
    else if DeleteMain(s, t) { DeleteMainInv(s, t); }
    else if CreateMain(s, t) { CreateMainInv(s, t); }
    else if Copy(s, t) { CopyInv(s, t); }
    else if ReadLatest(s, t) { ReadLatestInv(s, t); }
    else if CreateDr(s, t) { CreateDrInv(s, t); }
    else if Compare(s, t) { CompareInv(s, t); }
    else if DeleteMainBase(s, t) { DeleteMainBaseInv(s, t); }
    else { DeleteDrBaseInv(s, t); }
  }
}
