/** What start-up recovery and publication leave in the generation directories, file by
    file. */
module GenerationRules {
  import opened Bytes
  import opened Primitives
  import opened Keys
  import opened ChainTables
  import opened Publication
  import opened Generations
  import opened PublicationRules
  import Canonical

  /** The manifest once a pending journal is settled: its target if the tip already is
      the target's, and otherwise the one that was there. */
  ghost function SettledManifest(d: Disk): Option<Manifest> {
    if d.journal.Some? && TipStored(d.db, d.journal.value.target) then Some(d.journal.value.target) else d.manifest
  }

  lemma TipStoredExactly(db: Db, m: Manifest)
    ensures TipStored(db, m) <==> TipMatches(db, m)
  {
    hide Canonical.HeaderHash;
  }

  /** Settling keeps the rows, and every file but the journal unless the tip already
      is the target's. */
  lemma SettledFiles(d: Disk)
    requires RecoverPlan(d).ok
    ensures Settled(d).db == d.db && Settled(d).manifest == SettledManifest(d) && Settled(d).journal.None?
    ensures d.journal.Some? && TipStored(d.db, d.journal.value.target) ==>
      Settled(d) == Done(d.db, d.journal.value.target)
    ensures !(d.journal.Some? && TipStored(d.db, d.journal.value.target)) ==> Settled(d) == d.(journal := None)
  {
    hide TipStored, TipMatches, Finish, Perform;
    if d.journal.None? {
      NothingToDo(d);
    } else {
      TipStoredExactly(d.db, d.journal.value.target);
      FinishPrefix(d, d.journal.value.target, 4);
      ClearOnly(d);
    }
  }

  /** Recovery can settle a journal exactly when the tip is that of one of its ends. */
  lemma SettlesExactly(d: Disk)
    ensures RecoverPlan(d).ok <==>
      d.journal.None? || TipStored(d.db, d.journal.value.target) || TipStored(d.db, d.journal.value.previous)
  {
    hide TipStored, TipMatches, Finish;
    if d.journal.Some? {
      TipStoredExactly(d.db, d.journal.value.target);
      TipStoredExactly(d.db, d.journal.value.previous);
    }
  }

  /** A directory is usable exactly when its manifest is active or verified and, if it
      has a database, its files agree with its rows once its journal is settled. */
  lemma UsableExactly(d: Dir)
    ensures Usable(d) <==>
      d.disk.manifest.Some? && d.disk.manifest.value.status in {Active, Verified} &&
      (d.hasDatabase ==> RecoverPlan(d.disk).ok && FilesAgree(Settled(d.disk)))
  {
    hide RecoverPlan, Settled, FilesAgree, Verify;
    VerifyExactly(Settled(d.disk));
  }

  lemma CheckedFiles(d: Dir)
    ensures Checked(d).disk.db == d.disk.db && Checked(d).hasDatabase == d.hasDatabase
    ensures Checked(d).disk.manifest == d.disk.manifest || Checked(d).disk.manifest == SettledManifest(d.disk)
    ensures d.disk.journal.None? ==> Checked(d).disk == d.disk.(publication := Checked(d).disk.publication)
  {
    hide RecoverPlan, Settled, Verify, SettledManifest;
    if Candidate(d) && d.hasDatabase && Opens(d) {
      SettledFiles(d.disk);
      if d.disk.journal.None? { NothingToDo(d.disk); }
    }
  }

  /** The pointed-to directory that recovery found unusable. */
  ghost predicate GivenUp(root: Root, id: u64) {
    root.active == Some(id) && id in root.published && !Usable(root.published[id]) && Candidate(root.published[id])
  }

  /** The directory that recovery moves the pointer to. */
  ghost predicate Chosen(root: Root, id: u64) {
    !ActiveUsable(root) && IsHighest(id, UsableIds(root.published))
  }

  ghost predicate MarkedAs(d: Disk, before: Disk, status: Status) {
    d.manifest.Some? &&
    ((before.manifest.Some? && d.manifest.value == before.manifest.value.(status := status)) ||
     (SettledManifest(before).Some? && d.manifest.value == SettledManifest(before).value.(status := status)))
  }

  /** Recovery changes no row of any generation. It marks the one it gave up as failed
      and the one it chose as active, settles journals, and leaves every other manifest
      as it is. */
  lemma RecoveredFiles(root: Root, id: u64)
    requires Recover(root).Some? && id in root.published
    ensures id in Recover(root).value.published
    ensures var d, before := Recover(root).value.published[id].disk, root.published[id].disk;
      d.db == before.db &&
      if GivenUp(root, id) then
        before.manifest.Some? && d.manifest == Some(before.manifest.value.(status := Failed))
      else if Chosen(root, id) then MarkedAs(d, before, Active)
      else d.manifest == before.manifest || d.manifest == SettledManifest(before)
  {
    hide Usable, Opens, Checked, SettledManifest, Highest;
    var d := root.published[id];
    CheckedFiles(d);
    ActiveIsListed(root);
    if !ActiveUsable(root) {
      assert UsableIds(root.published) != {} ==> forall top ::
        IsHighest(top, UsableIds(root.published)) ==> top == Highest(UsableIds(root.published));
      if GivenUp(root, id) {
        MarkFailedUnusable(Checked(d), d.disk.manifest.value);
      } else {
        ChosenIsCandidate(d);
      }
    }
  }

  lemma ChosenIsCandidate(d: Dir)
    ensures Usable(d) ==> Checked(d).disk.manifest.Some?
  {
    hide RecoverPlan, Settled, Verify;
    if Usable(d) && d.hasDatabase { VerifiedCandidate(Settled(d.disk)); }
  }

  /** A generation published from staging keeps the rows that were staged and has the
      given manifest, with a fresh record of it, unless a journal that was staged with
      it brought its own; recovery then leaves it that way. */
  lemma StagedFiles(before: Root, stopped: Root, id: u64, m: Manifest)
    requires Reached(before, stopped, id, m, Pointed)
    ensures m.generationId == id && m.status.Verified? && id !in before.published && id in before.staging
    ensures Recover(stopped).Some? && id in Recover(stopped).value.published
    ensures var d := Recover(stopped).value.published[id].disk;
      d.db == before.staging[id].disk.db && FilesAgree(d) && d.journal.None? &&
      (before.staging[id].disk.journal.None? ==>
        d.manifest == Some(m) && d.publication == Some(RecordFor(m)) &&
        d.checkpoint == before.staging[id].disk.checkpoint)
  {
    hide Usable, Opens, Checked, RecoverPlan, Settled, Verify, FilesAgree, SettledManifest;
    var staged := StagedDisk(before.staging[id], m);
    StagedIsUsable(before.staging[id], m);
    RecoverKeepsActive(stopped);
    SettledFiles(staged);
    VerifyExactly(Settled(staged));
    if staged.journal.None? { NothingToDo(staged); }
  }
}
