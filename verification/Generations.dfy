/** Generation directories and the pointer to the active one: publishing a staged
    generation, and recovery when the node starts. */
module Generations {
  import opened Bytes
  import opened Primitives
  import opened Keys
  import opened ChainTables
  import opened Publication
  import opened Storage
  import Canonical

  /** A generation directory. A directory without database files holds metadata only. */
  datatype Dir = Dir(disk: Disk, hasDatabase: bool)

  datatype Root = Root(published: map<u64, Dir>, staging: map<u64, Dir>, active: Option<u64>)

  // ---- Checking one directory ----

  predicate Candidate(d: Dir) {
    d.disk.manifest.Some? && Publishable(d.disk.manifest.value.status)
  }

  /** Opening a candidate fails when its journal fits neither tip. */
  predicate Opens(d: Dir) {
    Candidate(d) && d.hasDatabase ==> RecoverPlan(d.disk).ok
  }

  predicate Usable(d: Dir) {
    Candidate(d) && (d.hasDatabase ==> RecoverPlan(d.disk).ok && Verify(Settled(d.disk)).Some?)
  }

  /** The directory after the check: a candidate is opened, which settles its
      journal, and verified, which refreshes its publication record. */
  function Checked(d: Dir): Dir {
    if Candidate(d) && d.hasDatabase && Opens(d) then d.(disk := Repaired(Settled(d.disk))) else d
  }

  lemma SettledHasNoJournal(d: Disk)
    requires RecoverPlan(d).ok
    ensures Settled(d).journal.None?
  {
    hide TipMatches, Finish, Perform;
    if d.journal.None? {
      NothingToDo(d);
    } else {
      FinishPrefix(d, d.journal.value.target, 4);
      ClearOnly(d);
    }
  }

  lemma RepairedSettles(d: Disk)
    requires d.journal.None?
    ensures RecoverPlan(Repaired(d)).ok && Settled(Repaired(d)) == Repaired(d) && Repaired(Repaired(d)) == Repaired(d)
    ensures Verify(Repaired(d)) == Verify(d)
  {
    hide BestHeader, HeaderMatches, HeaderByNumber, Canonical.HeaderHash;
    NothingToDo(Repaired(d));
  }

  /** Checking a directory that opens changes neither whether it opens nor whether it
      is usable, and checking it again changes nothing. */
  lemma CheckSettles(d: Dir)
    ensures Opens(d) ==> Opens(Checked(d)) && Checked(Checked(d)) == Checked(d)
    ensures Usable(Checked(d)) <==> Usable(d)
    ensures Usable(d) ==> Opens(d)
  {
    hide RecoverPlan, Settled, Repaired, Verify;
    if Candidate(d) && d.hasDatabase && Opens(d) {
      SettledHasNoJournal(d.disk);
      RepairedSettles(Settled(d.disk));
      VerifiedCandidate(Settled(d.disk));
      VerifiedCandidate(Repaired(Settled(d.disk)));
    }
  }

  lemma VerifiedCandidate(d: Disk)
    ensures Verify(d).Some? ==> d.manifest.Some? && Publishable(d.manifest.value.status)
  {
    hide TipMatches, CheckpointSound;
  }

  // ---- Recovery ----

  ghost predicate ActiveUsable(root: Root) {
    root.active.Some? && root.active.value in root.published && Usable(root.published[root.active.value])
  }

  ghost predicate AllOpen(published: map<u64, Dir>) {
    forall id :: id in published ==> Opens(published[id])
  }

  ghost function UsableIds(published: map<u64, Dir>): set<u64> {
    set id | id in published && Usable(published[id])
  }

  ghost predicate IsHighest(id: u64, ids: set<u64>) {
    id in ids && forall other :: other in ids ==> other <= id
  }

  lemma {:induction false} HighestExists(ids: set<u64>)
    requires ids != {}
    ensures exists id :: IsHighest(id, ids)
    decreases |ids|
  {
    var id :| id in ids;
    if forall other :: other in ids ==> other <= id {
      assert IsHighest(id, ids);
    } else {
      var rest := ids - {id};
      var larger :| larger in ids && larger > id;
      assert larger in rest;
      HighestExists(rest);
      var top :| IsHighest(top, rest);
      assert forall other :: other in ids ==> other == id || other in rest;
      assert IsHighest(top, ids);
    }
  }

  ghost function Highest(ids: set<u64>): (id: u64)
    requires ids != {}
    ensures IsHighest(id, ids)
  {
    HighestExists(ids);
    var id :| IsHighest(id, ids);
    id
  }

  /** Where the pointer belongs. */
  ghost function Destiny(root: Root): Option<u64> {
    if ActiveUsable(root) || UsableIds(root.published) == {} then root.active
    else Some(Highest(UsableIds(root.published)))
  }

  /** The manifest read before the check is what gets marked. */
  function MarkFailed(d: Dir, m: Manifest): Dir {
    d.(disk := d.disk.(manifest := Some(m.(status := Failed))))
  }

  function Activated(d: Dir): Dir {
    if d.disk.manifest.Some? then d.(disk := d.disk.(manifest := Some(d.disk.manifest.value.(status := Active)))) else d
  }

  /** The published directories once the active one turned out unusable. */
  ghost function Demoted(root: Root): map<u64, Dir> {
    if root.active.Some? && root.active.value in root.published && Candidate(root.published[root.active.value]) then
      var d := root.published[root.active.value];
      root.published[root.active.value := MarkFailed(Checked(d), d.disk.manifest.value)]
    else root.published
  }

  ghost function CheckAll(published: map<u64, Dir>): map<u64, Dir> {
    map id | id in published :: Checked(published[id])
  }

  /** What recovery leaves behind, or None when some directory does not open. */
  ghost function Recover(root: Root): Option<Root> {
    if ActiveUsable(root) then
      var a := root.active.value;
      Some(Root(root.published[a := Checked(root.published[a])], map[], root.active))
    else if !AllOpen(root.published) then None
    else
      var published := CheckAll(Demoted(root));
      var ids := UsableIds(root.published);
      if ids == {} then Some(Root(published, map[], root.active))
      else Some(Root(published[Highest(ids) := Activated(published[Highest(ids)])], map[], Some(Highest(ids))))
  }

  lemma MarkFailedUnusable(d: Dir, m: Manifest)
    ensures !Usable(MarkFailed(d, m)) && Opens(MarkFailed(d, m)) && Checked(MarkFailed(d, m)) == MarkFailed(d, m)
  {
    hide RecoverPlan, Settled, Repaired, Verify;
  }

  /** Only an unusable active directory is demoted, so the usable ones stay. */
  lemma DemotedKeeps(root: Root, id: u64)
    requires !ActiveUsable(root)
    ensures Demoted(root).Keys == root.published.Keys
    ensures id in root.published ==> (Usable(Demoted(root)[id]) <==> Usable(root.published[id]))
    ensures id in root.published && Opens(root.published[id]) ==> Opens(Demoted(root)[id])
  {
    hide Usable, Opens, Checked, MarkFailed;
    if root.active.Some? && root.active.value in root.published && Candidate(root.published[root.active.value]) {
      var d := root.published[root.active.value];
      MarkFailedUnusable(Checked(d), d.disk.manifest.value);
    }
  }

  lemma CheckedHasNoJournal(d: Dir)
    requires Candidate(d) && d.hasDatabase && Opens(d)
    ensures Checked(d).disk.journal.None?
  {
    hide RecoverPlan, Settled, Verify, RecordFor;
    SettledHasNoJournal(d.disk);
  }

  /** Making the generation active changes the manifest that its publication record
      has the checksum of. */
  predicate GoesStale(d: Dir) {
    d.hasDatabase &&
    var settled := Settled(d.disk);
    settled.publication.Some? && settled.manifest.Some? &&
    ManifestChecksum(settled.manifest.value) != ManifestChecksum(settled.manifest.value.(status := Active))
  }

  lemma ActivatedUsable(d: Dir)
    requires Usable(d) && Checked(d) == d
    ensures Usable(Activated(d)) && Opens(Activated(d))
    ensures Checked(Activated(d)) == Activated(d) <==> !GoesStale(d)
  {
    hide RecoverPlan, Settled, BestHeader, HeaderByNumber, Canonical.HeaderHash;
    if d.hasDatabase {
      CheckedHasNoJournal(d);
      NothingToDo(d.disk);
      NothingToDo(Activated(d).disk);
    }
  }

  lemma CheckKeepsStaleness(d: Dir)
    requires Usable(d)
    ensures GoesStale(Checked(d)) <==> GoesStale(d)
  {
    hide RecoverPlan, Settled, Verify;
    if d.hasDatabase {
      CheckedHasNoJournal(d);
      NothingToDo(Checked(d).disk);
    }
  }

  // ---- Where recovery ends ----

  /** From any state: recovery fails exactly when the active generation is unusable
      and some candidate does not open. Otherwise no staging directory is left, the
      same generations are usable as before, and the pointer is where it was if that
      generation was usable and on the highest usable one if not. */
  lemma RecoveryPicks(root: Root)
    ensures Recover(root).None? <==> !ActiveUsable(root) && !AllOpen(root.published)
    ensures Recover(root).Some? ==>
      var r := Recover(root).value;
      r.staging == map[] && r.active == Destiny(root) && UsableIds(r.published) == UsableIds(root.published) &&
      r.published.Keys == root.published.Keys && (UsableIds(root.published) != {} ==> ActiveUsable(r))
  {
    hide Usable, Opens, Checked, Demoted, Activated, Highest;
    if Recover(root).Some? {
      var r := Recover(root).value;
      forall id | id in root.published
        ensures id in r.published && (Usable(r.published[id]) <==> Usable(root.published[id]))
      {
        RecoveredDir(root, id);
      }
      if !ActiveUsable(root) { DemotedKeeps(root, 0); }
      assert UsableIds(r.published) == UsableIds(root.published);
    }
  }

  /** One directory after recovery. */
  lemma RecoveredDir(root: Root, id: u64)
    requires Recover(root).Some? && id in root.published
    ensures var r := Recover(root).value;
      id in r.published && (Usable(r.published[id]) <==> Usable(root.published[id]))
  {
    hide Usable, Opens, Checked, Demoted, Activated, Highest;
    CheckSettles(root.published[id]);
    if !ActiveUsable(root) {
      DemotedKeeps(root, id);
      var d := Demoted(root)[id];
      CheckSettles(d);
      if Usable(d) { CheckSettles(Checked(d)); ActivatedUsable(Checked(d)); }
    }
  }

  // ---- Recovering twice ----

  /** Whether the fallback leaves its generation with a stale publication record. */
  ghost predicate FallbackGoesStale(root: Root) {
    !ActiveUsable(root) && UsableIds(root.published) != {} &&
    GoesStale(root.published[Highest(UsableIds(root.published))])
  }

  /** Running recovery again changes nothing exactly when the fallback left no stale
      record; the third run never changes anything. */
  lemma RecoverTwice(root: Root)
    requires Recover(root).Some?
    ensures var r := Recover(root).value;
      Recover(r).Some? && (Recover(r).value == r <==> !FallbackGoesStale(root)) &&
      Recover(Recover(r).value) == Recover(r)
  {
    hide Usable, Opens, Checked, Demoted, Activated, Highest, Recover, GoesStale;
    var r := Recover(root).value;
    RecoveryPicks(root);
    if UsableIds(root.published) == {} {
      NothingUsable(root);
    } else {
      var a := r.active.value;
      ActiveAfter(root);
      RecoverKeepsActive(r);
      CheckSettles(r.published[a]);
      var r2 := Recover(r).value;
      RecoverKeepsActive(r2);
      assert r2.published[a] == Checked(r.published[a]);
      assert r == r2 <==> r.published[a] == r2.published[a];
      assert r2.published[a := Checked(r2.published[a])] == r2.published;
    }
  }

  lemma RecoverKeepsActive(root: Root)
    requires ActiveUsable(root)
    ensures Recover(root) ==
      Some(Root(root.published[root.active.value := Checked(root.published[root.active.value])], map[], root.active))
    ensures ActiveUsable(Recover(root).value)
  {
    hide Usable, Opens, Checked;
    CheckSettles(root.published[root.active.value]);
  }

  lemma ActiveAfter(root: Root)
    requires Recover(root).Some? && UsableIds(root.published) != {}
    ensures var r := Recover(root).value;
      r.active.Some? && r.active.value in r.published &&
      (Checked(r.published[r.active.value]) == r.published[r.active.value] <==> !FallbackGoesStale(root))
  {
    hide Usable, Opens, Checked, Activated, GoesStale, MarkFailed;
    if ActiveUsable(root) {
      CheckSettles(root.published[root.active.value]);
    } else {
      var top := Highest(UsableIds(root.published));
      var d := root.published[top];
      DemotedKeeps(root, top);
      assert root.active != Some(top);
      assert Demoted(root)[top] == d;
      CheckSettles(d);
      CheckSettles(Checked(d));
      CheckKeepsStaleness(d);
      ActivatedUsable(Checked(d));
    }
  }

  lemma ActiveIsListed(root: Root)
    ensures ActiveUsable(root) ==> root.active.value in UsableIds(root.published)
  {
    hide Usable;
  }

  lemma NothingUsable(root: Root)
    requires Recover(root).Some? && UsableIds(root.published) == {}
    ensures Recover(Recover(root).value) == Recover(root)
    ensures !FallbackGoesStale(root)
  {
    hide Usable, Opens, Checked, MarkFailed;
    ActiveIsListed(root);
    var r := Recover(root).value;
    RecoveryPicks(root);
    forall id | id in r.published ensures Checked(r.published[id]) == r.published[id] && Opens(r.published[id]) {
      DemotedKeeps(root, id);
      CheckSettles(Demoted(root)[id]);
    }
    ActiveIsListed(r);
    assert CheckAll(r.published) == r.published;
    DemotedAgain(root);
    assert Demoted(r) == r.published;
  }

  /** What was demoted is no candidate any more. */
  lemma DemotedAgain(root: Root)
    requires !ActiveUsable(root)
    ensures var r := Root(CheckAll(Demoted(root)), map[], root.active); Demoted(r) == r.published
  {
    hide Usable, Opens, Checked;
    if root.active.Some? && root.active.value in root.published {
      var d := root.published[root.active.value];
      if Candidate(d) {
        MarkFailedUnusable(Checked(d), d.disk.manifest.value);
      } else {
        NoCandidate(d);
      }
    }
  }

  lemma NoCandidate(d: Dir)
    requires !Candidate(d)
    ensures Checked(d) == d
  {
  }

  /** A generation that gets activated by the fallback and goes stale: recovery run a
      second time rewrites its publication record. */
  lemma RecoveringTwiceCanDiffer(h: BlockHeader, m: Manifest)
    requires HeaderMatches(h, m) && m.status == Verified && m.replayCheckpoint.None?
    requires ManifestChecksum(m) != ManifestChecksum(m.(status := Active))
    ensures var db: Db := map[HeaderAt(h.number) := HeaderRow(h), BestNumber := CountRow(h.number)];
      var root :=
        Root(map[m.generationId := Dir(Disk(db, Some(m), None, Some(RecordFor(m)), None), true)], map[], None);
      Recover(root).Some? && Recover(Recover(root).value) != Recover(root)
  {
    hide Canonical.HeaderHash;
    var db: Db := map[HeaderAt(h.number) := HeaderRow(h), BestNumber := CountRow(h.number)];
    var disk := Disk(db, Some(m), None, Some(RecordFor(m)), None);
    assert BestHeader(db) == Some(h);
    assert Verify(disk) == Some(m);
    NothingToDo(disk);
    var d := Dir(disk, true);
    assert Usable(d) && GoesStale(d);
    SoleFallback(m.generationId, d);
  }

  lemma SoleFallback(id: u64, d: Dir)
    requires Usable(d) && GoesStale(d)
    ensures var root := Root(map[id := d], map[], None);
      Recover(root).Some? && Recover(Recover(root).value) != Recover(root)
  {
    hide Usable, Opens, GoesStale, Checked, Activated;
    var root := Root(map[id := d], map[], None);
    CheckSettles(d);
    assert AllOpen(root.published);
    assert UsableIds(root.published) == {id};
    assert Highest(UsableIds(root.published)) == id;
    assert FallbackGoesStale(root);
    RecoverTwice(root);
  }

  // ---- Publishing a staged generation ----

  /** The staged directory with its final manifest, once opened. */
  function StagedDisk(d: Dir, m: Manifest): Disk {
    d.disk.(manifest := Some(m), publication := Some(RecordFor(m)))
  }

  /** The staged directory opens and verifies. */
  predicate Presentable(d: Dir, m: Manifest) {
    RecoverPlan(StagedDisk(d, m)).ok && Verify(Settled(StagedDisk(d, m))).Some?
  }

  ghost predicate CanPublish(root: Root, id: u64, m: Manifest) {
    m.generationId == id && m.status.Verified? && id in root.staging && id !in root.published &&
    Presentable(root.staging[id], m)
  }

  /** How far a publication got before it failed or the machine stopped. */
  datatype Phase = Preparing | Renamed | Pointed

  ghost predicate Reached(before: Root, after: Root, id: u64, m: Manifest, phase: Phase) {
    match phase
    case Preparing => after == before.(staging := after.staging)
    case Renamed => CanPublish(before, id, m) && after == AfterRename(before, id, m)
    case Pointed => CanPublish(before, id, m) && after == AfterRename(before, id, m).(active := Some(id))
  }

  ghost function AfterRename(root: Root, id: u64, m: Manifest): Root
    requires id in root.staging
  {
    root.(published := root.published[id := Dir(Settled(StagedDisk(root.staging[id], m)), true)],
          staging := root.staging - {id})
  }

  lemma SettledIsFresh(d: Disk)
    requires !StalePublication(d) && RecoverPlan(d).ok
    ensures !StalePublication(Settled(d)) && Settled(d).journal.None?
  {
    hide TipMatches, Finish, Perform;
    SettledHasNoJournal(d);
    if d.journal.None? {
      NothingToDo(d);
    } else {
      FinishPrefix(d, d.journal.value.target, 4);
      ClearOnly(d);
    }
  }

  /** A generation that could be published passes the check as it stands. */
  lemma StagedIsUsable(d: Dir, m: Manifest)
    requires Presentable(d, m)
    ensures var p := Dir(Settled(StagedDisk(d, m)), true); Usable(p) && Checked(p) == p
    ensures Repaired(Settled(StagedDisk(d, m))) == Settled(StagedDisk(d, m))
  {
    hide RecoverPlan, Settled, Verify;
    var disk := StagedDisk(d, m);
    SettledIsFresh(disk);
    NothingToDo(Settled(disk));
    VerifiedCandidate(Settled(disk));
  }

  /** Stopped anywhere, a publication followed by recovery leaves no staging directory
      and the pointer on a usable generation: the old one until the pointer was
      written, the new one from then on. Every other generation stays as it was. */
  lemma StagingIsAtomic(before: Root, stopped: Root, id: u64, m: Manifest, phase: Phase)
    requires ActiveUsable(before) && Reached(before, stopped, id, m, phase)
    ensures Recover(stopped).Some?
    ensures var r := Recover(stopped).value;
      r.staging == map[] && ActiveUsable(r) && r.active == (if phase.Pointed? then Some(id) else before.active) &&
      forall other :: other in before.published && other != r.active.value ==>
        other in r.published && r.published[other] == before.published[other]
  {
    hide Usable, Checked, Opens, Settled, RecoverPlan, Verify;
    if phase.Renamed? || phase.Pointed? {
      StagedIsUsable(before.staging[id], m);
    }
    RecoverKeepsActive(stopped);
  }

  /** Without a usable active generation the same holds for the highest usable one. */
  lemma StagingFromAnyState(before: Root, stopped: Root, id: u64, m: Manifest, phase: Phase)
    requires Reached(before, stopped, id, m, phase) && AllOpen(before.published)
    ensures Recover(stopped).Some? && Recover(stopped).value.staging == map[]
    ensures phase.Pointed? ==> Recover(stopped).value.active == Some(id)
    ensures phase.Preparing? ==> Recover(stopped).value.active == Destiny(before)
    ensures phase.Renamed? && (ActiveUsable(before) || before.active == Some(id)) ==>
      Recover(stopped).value.active == before.active
    ensures phase.Renamed? && !ActiveUsable(before) && before.active != Some(id) ==>
      Recover(stopped).value.active == Some(Highest(UsableIds(before.published) + {id}))
    ensures UsableIds(stopped.published) != {} ==> ActiveUsable(Recover(stopped).value)
  {
    hide Usable, Checked, Opens, Settled, RecoverPlan, Verify, Recover;
    RecoveryPicks(stopped);
    if !phase.Preparing? {
      StagedIsUsable(before.staging[id], m);
      CheckSettles(stopped.published[id]);
      assert AllOpen(stopped.published);
      assert UsableIds(stopped.published) == UsableIds(before.published) + {id};
    }
  }

  // ---- Stopping anywhere in recovery ----

  ghost predicate Alike(a: Dir, b: Dir) {
    (Usable(a) <==> Usable(b)) && (Opens(a) <==> Opens(b))
  }

  ghost predicate AllAlike(p: map<u64, Dir>, q: map<u64, Dir>) {
    p.Keys == q.Keys && forall id :: id in p ==> Alike(p[id], q[id])
  }

  lemma AlikeRoots(a: Root, b: Root)
    requires AllAlike(a.published, b.published)
    ensures UsableIds(a.published) == UsableIds(b.published)
    ensures AllOpen(a.published) <==> AllOpen(b.published)
    ensures a.active == b.active ==> Destiny(a) == Destiny(b) && (ActiveUsable(a) <==> ActiveUsable(b))
  {
    hide Usable, Opens;
    assert forall id :: id in a.published ==> Alike(a.published[id], b.published[id]);
  }

  /** A check that stopped halfway leaves a directory that will fare the same. */
  lemma PartialCheck(d: Dir, k: nat)
    requires Candidate(d) && d.hasDatabase
    ensures Alike(d, d.(disk := Perform(d.disk, Crashed(RecoverPlan(d.disk).writes, k))))
  {
    hide RecoverPlan, Settled, Verify, Perform, Crashed;
    var partial := d.(disk := Perform(d.disk, Crashed(RecoverPlan(d.disk).writes, k)));
    if RecoverPlan(d.disk).ok {
      RecoveryResumes(d.disk, k);
      VerifiedCandidate(Settled(d.disk));
      PartialManifest(d.disk, k);
    } else {
      RefusedWritesNothing(d.disk, k);
    }
  }

  lemma RefusedWritesNothing(d: Disk, k: nat)
    requires !RecoverPlan(d).ok
    ensures Perform(d, Crashed(RecoverPlan(d).writes, k)) == d
  {
    hide TipMatches, Finish;
  }

  /** Halfway, the manifest is the old one or the one it will end with. */
  lemma PartialManifest(d: Disk, k: nat)
    requires RecoverPlan(d).ok
    ensures var partial := Perform(d, Crashed(RecoverPlan(d).writes, k));
      partial.manifest == d.manifest || partial.manifest == Settled(d).manifest
  {
    hide TipMatches, Perform, Do, Crashed;
    if d.journal.Some? {
      var writes := RecoverPlan(d).writes;
      PowerFails(writes, k);
      NothingPerformed(d);
      if |writes| == 4 {
        ManifestSteps(d, d.journal.value.target, k);
      }
    } else {
      NothingToDo(d);
      NothingPerformed(d);
      PowerFails([], k);
    }
  }

  lemma ManifestSteps(d: Disk, target: Manifest, k: nat)
    ensures var partial := Perform(d, Crashed(Finish(target), k));
      partial.manifest == if k < 2 then d.manifest else Some(target)
    ensures Perform(d, Finish(target)).manifest == Some(target)
  {
    CrashedSteps(d, Finish(target), k);
    FinishPrefix(d, target, 4);
  }

  /** Whether recovery fares the same from two states of the root: it succeeds from
      both or from neither, on the same usable generations, and ends on the same one. */
  ghost predicate SameProspects(a: Root, b: Root) {
    AllAlike(a.published, b.published) && Destiny(a) == Destiny(b) && (Recover(a).Some? <==> Recover(b).Some?)
  }

  class GenerationStore {
    var published: map<u64, Dir>
    var staging: map<u64, Dir>
    var active: Option<u64>
    /** How many durable writes still complete before the machine stops. */
    var power: nat

    function AsRoot(): Root
      reads this
    {
      Root(published, staging, active)
    }

    method Spend() returns (ok: bool)
      modifies this`power
      ensures ok <==> old(power) > 0
      ensures power == if ok then old(power) - 1 else 0
    {
      ok := power > 0;
      if ok { power := power - 1; }
    }

    /** Checks one published generation; None when it does not open or the machine
        stops. */
    method Check(id: u64) returns (valid: Option<bool>)
      requires id in published
      modifies this`published, this`power
      ensures power + 5 >= old(power)
      ensures id in published && published == old(published)[id := published[id]]
      ensures Alike(old(published[id]), published[id])
      ensures valid.Some? ==> Opens(old(published[id])) && published[id] == Checked(old(published[id]))
      ensures valid.Some? ==> (valid.value <==> Usable(old(published[id])))
      ensures valid.None? ==> power == 0 || !Opens(old(published[id]))
    {
      hide RecoverPlan, Verify, Settled, Repaired, Perform, Crashed;
      var d := published[id];
      if !Candidate(d) { return Some(false); }
      if !d.hasDatabase { return Some(true); }
      var opened' := new SledStorage(d.disk, power);
      var ok := opened'.RecoverSuffixPublication();
      power := opened'.power;
      published := published[id := Dir(opened'.OnDisk(), true)];
      PartialCheck(d, old(power));
      if !ok { return None; }
      WholePlan(d.disk, old(power));
      var m, alive := opened'.VerifyGenerationManifest();
      power := opened'.power;
      published := published[id := Dir(opened'.OnDisk(), true)];
      if !alive { return None; }
      CheckSettles(d);
      valid := Some(m.Some?);
    }

    /** Drops staging directories. */
    method RemoveStaging() returns (ok: bool)
      modifies this`staging, this`power
      ensures power + |old(staging)| >= old(power) && |staging| <= |old(staging)|
      ensures ok ==> staging == map[]
      ensures !ok ==> power == 0
    {
      var rest := staging.Keys;
      while rest != {}
        invariant staging.Keys == rest && |rest| <= |old(staging).Keys|
        invariant power + |old(staging).Keys| - |rest| >= old(power)
        decreases |rest|
      {
        ok := Spend();
        if !ok { return; }
        var id :| id in rest;
        staging := staging - {id};
        rest := rest - {id};
      }
      ok := true;
    }

    /** Checks every published generation, in the order the directory is read, and
        gives the highest valid one. */
    method Scan(order: seq<u64>) returns (ok: bool, best: Option<u64>)
      requires forall id :: id in order <==> id in published
      modifies this`published, this`power
      ensures power + 5 * |order| >= old(power)
      ensures AllAlike(old(published), published)
      ensures ok ==> AllOpen(old(published)) && published == CheckAll(old(published))
      ensures ok ==> best == if UsableIds(old(published)) == {} then None else Some(Highest(UsableIds(old(published))))
      ensures !ok ==> power == 0 || !AllOpen(old(published))
    {
      hide Usable, Opens, Checked, Highest;
      best := None;
      ghost var p := published;
      for i := 0 to |order|
        invariant published.Keys == p.Keys
        invariant forall id :: id in p ==> published[id] == if id in order[..i] then Checked(p[id]) else p[id]
        invariant forall id :: id in order[..i] ==> Opens(p[id])
        invariant best.None? ==> forall id :: id in order[..i] ==> !Usable(p[id])
        invariant best.Some? ==> best.value in p && Usable(p[best.value])
        invariant best.Some? ==> forall id :: id in order[..i] && Usable(p[id]) ==> id <= best.value
        invariant AllAlike(p, published) && power + 5 * i >= old(power)
      {
        var id := order[i];
        assert id in order;
        assert order[..i + 1] == order[..i] + [id];
        ghost var before := published[id];
        CheckSettles(p[id]);
        var valid := Check(id);
        assert AllAlike(p, published);
        if valid.None? { return false, None; }
        if valid.value && (best.None? || best.value < id) {
          best := Some(id);
        }
      }
      assert order[..|order|] == order;
      ok := true;
      if best.Some? {
        assert IsHighest(best.value, UsableIds(p));
      }
    }

    /** Checks the active generation and marks it failed if it is unusable. */
    method CheckActive() returns (ok: bool, usable: bool)
      modifies this`published, this`power
      ensures power + 6 >= old(power)
      ensures AllAlike(old(published), published) && published.Keys == old(published).Keys
      ensures ok && usable ==>
        ActiveUsable(old(AsRoot())) && Recover(old(AsRoot())) == Some(AsRoot().(staging := map[]))
      ensures ok && !usable ==> !ActiveUsable(old(AsRoot())) && published == Demoted(old(AsRoot()))
      ensures !ok ==> power == 0 || Recover(old(AsRoot())).None?
    {
      hide Usable, Opens, Checked, Highest, MarkFailed;
      ActiveNeedsCandidate(AsRoot());
      if active.None? || active.value !in published || !Candidate(published[active.value]) {
        return true, false;
      }
      var a := active.value;
      var m := published[a].disk.manifest.value;
      CheckSettles(published[a]);
      var valid := Check(a);
      if valid.None? { return false, false; }
      if valid.value { return true, true; }
      ok := Spend();
      usable := false;
      if ok {
        MarkFailedUnusable(published[a], m);
        published := published[a := MarkFailed(published[a], m)];
      }
    }

    /** Moves the pointer, then makes the manifest say so. */
    method Activate(id: u64) returns (ok: bool)
      requires id in published && Usable(published[id]) && Checked(published[id]) == published[id]
      modifies this`published, this`active, this`power
      ensures power + 2 >= old(power)
      ensures AllAlike(old(published), published)
      ensures active == Some(id) || active == old(active)
      ensures ok ==> active == Some(id) && published == old(published)[id := Activated(old(published[id]))]
      ensures !ok ==> power == 0
    {
      hide Usable, Opens, Checked, Activated;
      ok := Spend();
      if !ok { return; }
      active := Some(id);
      ok := Spend();
      if !ok { return; }
      CheckSettles(published[id]);
      ActivatedUsable(published[id]);
      published := published[id := Activated(published[id])];
    }

    /** Writes the final manifest and record into a staging directory, opens it and
        verifies it. */
    method PrepareStaging(id: u64, m: Manifest) returns (ok: bool)
      requires id in staging
      modifies this`staging, this`power
      ensures ok ==> Presentable(old(staging[id]), m) &&
                     staging == old(staging)[id := Dir(Settled(StagedDisk(old(staging[id]), m)), true)]
      ensures !ok ==> power == 0 || !Presentable(old(staging[id]), m)
    {
      hide RecoverPlan, Settled, Verify, Perform, Crashed, Repaired;
      var d := staging[id];
      ok := Spend();
      if !ok { return; }
      staging := staging[id := d.(disk := d.disk.(manifest := Some(m)))];
      ok := Spend();
      if !ok { return; }
      var opened' := new SledStorage(StagedDisk(d, m), power);
      ghost var available := power;
      ok := opened'.RecoverSuffixPublication();
      power, staging := opened'.power, staging[id := Dir(opened'.OnDisk(), true)];
      if !ok { return; }
      WholePlan(StagedDisk(d, m), available);
      var verified, alive := opened'.VerifyGenerationManifest();
      power, staging := opened'.power, staging[id := Dir(opened'.OnDisk(), true)];
      ok := alive && verified.Some?;
      if ok { StagedIsUsable(d, m); }
    }

    /** Publishes a staged generation; the phase says what was reached if it fails or
        the machine stops on the way. */
    method PublishStagingGeneration(id: u64, m: Manifest) returns (ok: bool, ghost phase: Phase)
      modifies this
      ensures Reached(old(AsRoot()), AsRoot(), id, m, phase)
      ensures ok <==> phase.Pointed?
      ensures !ok ==> power == 0 || !CanPublish(old(AsRoot()), id, m)
    {
      hide Presentable, Settled, StagedDisk;
      ok, phase := false, Preparing;
      if m.generationId != id || !m.status.Verified? || id !in staging { return; }
      ok := PrepareStaging(id, m);
      if !ok { return; }
      ok := id !in published;
      if !ok { return; }
      ok := Spend();
      if !ok { return; }
      published := published[id := staging[id]];
      staging := staging - {id};
      phase := Renamed;
      assert staging == old(staging) - {id};
      ok := Spend();
      if !ok { return; }
      active := Some(id);
      phase := Pointed;
    }

    /** Recovery at start-up, stopped by the machine or not: the same generations stay
        usable and the pointer is still bound for the same one. If it completes it
        has done what `Recover` says. */
    method RecoverGenerationState(order: seq<u64>) returns (ok: bool)
      requires forall id :: id in order <==> id in published
      modifies this
      ensures SameProspects(old(AsRoot()), AsRoot())
      ensures ok ==> Recover(old(AsRoot())) == Some(AsRoot())
      ensures !ok ==> power == 0 || Recover(old(AsRoot())).None?
      ensures power + |old(staging)| + 5 * |order| + 8 >= old(power) && |staging| <= |old(staging)|
    {
      hide Usable, Opens, Checked, Highest, Activated, Alike, Demoted, AllAlike, AllOpen, Destiny;
      ghost var root := AsRoot();
      AlikeItself(published);
      ok := RemoveStaging();
      Prospects(root, AsRoot());
      if !ok { return; }
      var usable;
      ok, usable := CheckActive();
      StagingIrrelevant(root);
      Prospects(root, AsRoot());
      if !ok || usable { return; }
      ghost var demoted := published;
      var best;
      ok, best := Scan(order);
      AlikeChain(root.published, demoted, published);
      Prospects(root, AsRoot());
      AlikeRoots(root, Root(demoted, map[], active));
      if !ok || best.None? { return; }
      ghost var scanned := published;
      FallbackIsChecked(demoted, best.value);
      ok := Activate(best.value);
      AlikeChain(root.published, scanned, published);
      Prospects(root, AsRoot());
    }

    /** Recovery tried again after each time the machine stopped. It ends on the
        generation the first attempt was bound for. It succeeds if the first attempt
        could have, as soon as one attempt has power for all its writes. */
    method RecoverUntilDone(attempts: seq<Attempt>) returns (ok: bool)
      requires forall i, id :: 0 <= i < |attempts| ==> (id in attempts[i].order <==> id in published)
      modifies this
      ensures SameProspects(old(AsRoot()), AsRoot())
      ensures ok ==> staging == map[] && active == Destiny(old(AsRoot()))
      ensures ok ==>
        UsableIds(published) == UsableIds(old(published)) && (UsableIds(published) != {} ==> ActiveUsable(AsRoot()))
      ensures ok ==> Recover(old(AsRoot())).Some?
      ensures !ok && Recover(old(AsRoot())).Some? ==>
        forall i :: 0 <= i < |attempts| ==> attempts[i].power <= |old(staging)| + 5 * |attempts[i].order| + 8
    {
      hide Recover, Alike, Destiny, ActiveUsable;
      ghost var root := AsRoot();
      AlikeItself(published);
      Prospects(root, root);
      for i := 0 to |attempts|
        invariant SameProspects(root, AsRoot()) && published.Keys == root.published.Keys && |staging| <= |root.staging|
        invariant Recover(root).Some? ==>
          forall k :: 0 <= k < i ==> attempts[k].power <= |root.staging| + 5 * |attempts[k].order| + 8
      {
        ghost var before := AsRoot();
        power := attempts[i].power;
        ok := RecoverGenerationState(attempts[i].order);
        AlikeChain(root.published, before.published, published);
        if ok {
          RecoveryPicks(before);
          AlikeRoots(root, before);
          return;
        }
      }
      ok := false;
    }
  }

  /** One start of the node: the writes the machine completes before it stops, and the
      order in which the directory is read. */
  datatype Attempt = Attempt(power: nat, order: seq<u64>)

  lemma AlikeItself(p: map<u64, Dir>)
    ensures AllAlike(p, p)
  {
    hide Usable, Opens;
  }

  lemma AlikeChain(p: map<u64, Dir>, q: map<u64, Dir>, r: map<u64, Dir>)
    requires AllAlike(p, q) && AllAlike(q, r)
    ensures AllAlike(p, r)
  {
    hide Usable, Opens;
    forall id | id in p ensures Alike(p[id], r[id]) {
      assert Alike(p[id], q[id]) && Alike(q[id], r[id]);
    }
  }

  lemma StagingIrrelevant(root: Root)
    ensures Recover(root.(staging := map[])) == Recover(root)
    ensures ActiveUsable(root.(staging := map[])) == ActiveUsable(root) &&
      Demoted(root.(staging := map[])) == Demoted(root)
  {
    hide Usable, Opens, Checked, Highest, MarkFailed, Activated;
  }

  /** The pointer stays, or moves from an unusable generation to the highest usable
      once every directory opened. */
  lemma Prospects(a: Root, b: Root)
    requires AllAlike(a.published, b.published)
    ensures b.active == a.active ==> SameProspects(a, b)
    ensures !ActiveUsable(a) && AllOpen(a.published) && MovedToHighest(a, b) ==> SameProspects(a, b)
  {
    hide Usable, Opens, Alike, Recover;
    AlikeRoots(a, b);
    RecoveryPicks(a);
    RecoveryPicks(b);
    if MovedToHighest(a, b) {
      assert b.active.value in UsableIds(b.published);
    }
  }

  ghost predicate MovedToHighest(a: Root, b: Root) {
    UsableIds(a.published) != {} && b.active == Some(Highest(UsableIds(a.published)))
  }

  lemma FallbackIsChecked(p: map<u64, Dir>, id: u64)
    requires AllOpen(p) && UsableIds(p) != {} && id == Highest(UsableIds(p))
    ensures var q := CheckAll(p); id in q && Usable(q[id]) && Checked(q[id]) == q[id]
  {
    hide Usable, Opens, Checked;
    assert id in UsableIds(p);
    CheckSettles(p[id]);
  }

  lemma WholePlan(d: Disk, k: nat)
    requires k >= |RecoverPlan(d).writes|
    ensures Perform(d, Crashed(RecoverPlan(d).writes, k)) == Settled(d)
  {
    hide RecoverPlan, Perform;
    PowerFails(RecoverPlan(d).writes, k);
  }

  lemma ActiveNeedsCandidate(root: Root)
    ensures ActiveUsable(root) ==> Candidate(root.published[root.active.value])
  {
    hide RecoverPlan, Settled, Verify;
  }
}
