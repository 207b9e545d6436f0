/** Restoring the branch table from the refs on disk: what `_sync_branches_to_db` leaves, and when it agrees. */
module BranchSync {
  import opened Wrappers
  import opened BranchMirror

  /** The rows of the repository, each once, in some order. */
  ghost predicate Lists(rows: map<nat, Row>, repo: nat, order: seq<nat>) {
    && (forall i :: 0 <= i < |order| ==> order[i] in rows && rows[order[i]].repo == repo)
    && (forall id :: id in rows && rows[id].repo == repo ==> id in order)
  }

  function ByName(rows: map<nat, Row>, order: seq<nat>): map<string, nat>
    requires forall i :: 0 <= i < |order| ==> order[i] in rows
  {
    if order == [] then map[]
    else ByName(rows, order[..|order| - 1])[rows[order[|order| - 1]].name := order[|order| - 1]]
  }

  lemma {:induction false} ByNameFacts(rows: map<nat, Row>, order: seq<nat>)
    requires forall i :: 0 <= i < |order| ==> order[i] in rows
    ensures forall name :: name in ByName(rows, order) ==>
              ByName(rows, order)[name] in order && rows[ByName(rows, order)[name]].name == name
    ensures forall i :: 0 <= i < |order| ==> rows[order[i]].name in ByName(rows, order)
    decreases |order|
  {
    if order != [] {
      ByNameFacts(rows, order[..|order| - 1]);
    }
  }

  /** The row the dictionary holds for its name; a row of the repository that is not is shadowed by a later one. */
  predicate Current(rows: map<nat, Row>, repo: nat, existing: map<string, nat>, id: nat)
    requires id in rows
  {
    rows[id].repo == repo && rows[id].name in existing && existing[rows[id].name] == id
  }

  /** What became of a row when the names in `updated` were written from disk and those in `swept` looked for there. */
  function Fate(rows: map<nat, Row>, repo: nat, existing: map<string, nat>, disk: map<string, string>,
                updated: set<string>, swept: set<string>, id: nat): Option<Row>
    requires id in rows && updated <= disk.Keys
  {
    var row := rows[id];
    if !Current(rows, repo, existing, id) then Some(row)
    else if row.name in updated then Some(row.(sha := disk[row.name]))
    else if row.name in swept && row.name !in disk then None
    else Some(row)
  }

  function Added(repo: nat, name: string, disk: map<string, string>): Row
    requires name in disk
  {
    Row(repo, name, disk[name], None)
  }

  predicate NewRow(row: Row, repo: nat, existing: map<string, nat>, disk: map<string, string>, updated: set<string>)
    requires updated <= disk.Keys
  {
    row.name in updated && row.name !in existing && row == Added(repo, row.name, disk)
  }

  datatype Table = Table(rows: map<nat, Row>, nextId: nat)

  function Rewritten(table: Table, id: nat, sha: string): Table
    requires id in table.rows
  {
    table.(rows := table.rows[id := table.rows[id].(sha := sha)])
  }

  function Extended(table: Table, row: Row): Table {
    Table(table.rows[table.nextId := row], table.nextId + 1)
  }

  ghost predicate FateMet(before: Table, after: Table, repo: nat, existing: map<string, nat>, disk: map<string, string>,
                          updated: set<string>, swept: set<string>, id: nat)
    requires id in before.rows && updated <= disk.Keys
  {
    Fate(before.rows, repo, existing, disk, updated, swept, id)
    == if id in after.rows then Some(after.rows[id]) else None
  }

  /** Each updated name that had no row has one new row, and there are no other new rows. */
  ghost predicate RowsAdded(before: Table, after: Table, repo: nat, existing: map<string, nat>,
                            disk: map<string, string>, updated: set<string>)
    requires updated <= disk.Keys
  {
    && (forall id :: id in after.rows && id !in before.rows ==>
          before.nextId <= id < after.nextId && NewRow(after.rows[id], repo, existing, disk, updated))
    && (forall i, j | i in after.rows && i !in before.rows && j in after.rows && j !in before.rows ::
          after.rows[i].name == after.rows[j].name ==> i == j)
    && (forall name :: name in updated && name !in existing ==> HasNew(before, after, name))
  }

  ghost predicate HasNew(before: Table, after: Table, name: string) {
    exists id :: id in after.rows && id !in before.rows && after.rows[id].name == name
  }

  /** The table part-way through the sync. */
  ghost predicate Progress(before: Table, after: Table, repo: nat, existing: map<string, nat>,
                           disk: map<string, string>,
                           updated: set<string>, swept: set<string>)
    requires updated <= disk.Keys
  {
    && before.nextId <= after.nextId
    && (forall id :: id in before.rows ==> FateMet(before, after, repo, existing, disk, updated, swept, id))
    && RowsAdded(before, after, repo, existing, disk, updated)
  }

  ghost predicate Synced(before: Table, after: Table, repo: nat, existing: map<string, nat>,
                         disk: map<string, string>) {
    Progress(before, after, repo, existing, disk, disk.Keys, existing.Keys)
  }

  ghost predicate Bounded(table: Table) {
    forall id :: id in table.rows ==> id < table.nextId
  }

  /** The dictionary names rows of the repository by their own names. */
  ghost predicate Names(rows: map<nat, Row>, repo: nat, existing: map<string, nat>) {
    && (forall name :: name in existing ==> existing[name] in rows && Is(rows[existing[name]], repo, name))
    && (forall id :: id in rows && rows[id].repo == repo ==> rows[id].name in existing)
  }

  /** Changing or dropping an old row leaves the new rows as they are. */
  lemma NewRowsStay(before: Table, after: Table, later: Table, repo: nat, existing: map<string, nat>,
                    disk: map<string, string>,
                    updated: set<string>, more: set<string>)
    requires updated <= more <= disk.Keys && RowsAdded(before, after, repo, existing, disk, updated)
    requires later.nextId == after.nextId
    requires forall id :: id !in before.rows ==> (id in after.rows <==> id in later.rows)
    requires forall id :: id !in before.rows && id in after.rows ==> after.rows[id] == later.rows[id]
    requires forall name :: name in more && name !in updated ==> name in existing
    ensures RowsAdded(before, later, repo, existing, disk, more)
  {
    forall name | name in more && name !in existing ensures HasNew(before, later, name) {
      assert HasNew(before, after, name);
    }
  }

  lemma UpdateStep(before: Table, after: Table, repo: nat, existing: map<string, nat>, disk: map<string, string>,
                   updated: set<string>, name: string)
    requires Names(before.rows, repo, existing) && updated <= disk.Keys && name in disk && name !in updated
    requires name in existing && Progress(before, after, repo, existing, disk, updated, {})
    ensures existing[name] in after.rows && after.rows[existing[name]] == before.rows[existing[name]]
    ensures Progress(before, Rewritten(after, existing[name], disk[name]), repo, existing, disk, updated + {name}, {})
  {
    var current := existing[name];
    assert FateMet(before, after, repo, existing, disk, updated, {}, current);
    var later := Rewritten(after, current, disk[name]);
    forall id | id in before.rows ensures FateMet(before, later, repo, existing, disk, updated + {name}, {}, id) {
      assert FateMet(before, after, repo, existing, disk, updated, {}, id);
    }
    NewRowsStay(before, after, later, repo, existing, disk, updated, updated + {name});
  }

  lemma AddStep(before: Table, after: Table, repo: nat, existing: map<string, nat>, disk: map<string, string>,
                updated: set<string>, name: string)
    requires Bounded(before) && Bounded(after) && updated <= disk.Keys && name in disk && name !in updated
    requires name !in existing && Progress(before, after, repo, existing, disk, updated, {})
    ensures Progress(before, Extended(after, Added(repo, name, disk)), repo, existing, disk, updated + {name}, {})
  {
    var later := Extended(after, Added(repo, name, disk));
    forall id | id in before.rows ensures FateMet(before, later, repo, existing, disk, updated + {name}, {}, id) {
      assert FateMet(before, after, repo, existing, disk, updated, {}, id);
    }
    AddStepNewRows(before, after, repo, existing, disk, updated, name);
  }

  lemma NewRowStays(before: Table, after: Table, row: Row, name: string)
    requires Bounded(after) && HasNew(before, after, name)
    ensures HasNew(before, Extended(after, row), name)
  {
    var id :| id in after.rows && id !in before.rows && after.rows[id].name == name;
    assert id in Extended(after, row).rows && Extended(after, row).rows[id].name == name;
  }

  lemma AddStepNewRows(before: Table, after: Table, repo: nat, existing: map<string, nat>, disk: map<string, string>,
                       updated: set<string>, name: string)
    requires Bounded(before) && Bounded(after) && updated <= disk.Keys && name in disk && name !in updated
    requires before.nextId <= after.nextId && name !in existing &&
              RowsAdded(before, after, repo, existing, disk, updated)
    ensures RowsAdded(before, Extended(after, Added(repo, name, disk)), repo, existing, disk, updated + {name})
  {
    var later := Extended(after, Added(repo, name, disk));
    assert after.nextId in later.rows && after.nextId !in before.rows;
    forall other | other in updated + {name} && other !in existing ensures HasNew(before, later, other) {
      if other != name {
        NewRowStays(before, after, Added(repo, name, disk), other);
      }
    }
  }

  lemma DropStep(before: Table, after: Table, repo: nat, existing: map<string, nat>, disk: map<string, string>,
                 swept: set<string>, name: string)
    requires Names(before.rows, repo, existing) && name in existing && name !in swept
    requires Progress(before, after, repo, existing, disk, disk.Keys, swept)
    ensures Progress(before, after.(rows := if name in disk then after.rows else after.rows - {existing[name]}),
                     repo, existing, disk, disk.Keys, swept + {name})
  {
    var later := after.(rows := if name in disk then after.rows else after.rows - {existing[name]});
    forall id | id in before.rows ensures FateMet(before, later, repo, existing, disk, disk.Keys, swept + {name}, id) {
      assert FateMet(before, after, repo, existing, disk, disk.Keys, swept, id);
    }
    NewRowsStay(before, after, later, repo, existing, disk, disk.Keys, disk.Keys);
  }

  // ---------------------------------------------------------------- what the sync restores

  ghost predicate ReadsDisk(disk: map<string, string>, refs: map<string, string>) {
    forall name: string :: (name in disk <==> Head(name) in refs) && (name in disk ==> disk[name] == refs[Head(name)])
  }

  /** Every shadowed row, one whose name the dictionary gives to a later row, happens to say what is on disk. */
  ghost predicate ShadowsMatch(rows: map<nat, Row>, repo: nat, existing: map<string, nat>, disk: map<string, string>) {
    forall id :: id in rows && rows[id].repo == repo && !Current(rows, repo, existing, id)
      ==> rows[id].name in disk && rows[id].sha == disk[rows[id].name]
  }

  /** Whatever the table said, a synced one agrees with the refs exactly when every shadowed row already did. */
  lemma SyncRestoresMirrorIff(before: Table, after: Table, repo: nat, existing: map<string, nat>,
                              disk: map<string, string>, refs: map<string, string>)
    requires Names(before.rows, repo, existing) && ReadsDisk(disk, refs) && Synced(before, after, repo, existing, disk)
    ensures Mirrors(refs, after.rows, repo) <==> ShadowsMatch(before.rows, repo, existing, disk)
  {
    if ShadowsMatch(before.rows, repo, existing, disk) {
      forall id | id in after.rows && after.rows[id].repo == repo
        ensures Head(after.rows[id].name) in refs && refs[Head(after.rows[id].name)] == after.rows[id].sha {
        RowMatchesDisk(before, after, repo, existing, disk, id);
      }
      forall name: string | Head(name) in refs ensures Named(after.rows, repo, name) != {} {
        assert name in disk;
        NameIsListed(before, after, repo, existing, disk, name);
      }
    }
    if Mirrors(refs, after.rows, repo) {
      forall id | id in before.rows && before.rows[id].repo == repo && !Current(before.rows, repo, existing, id)
        ensures before.rows[id].name in disk && before.rows[id].sha == disk[before.rows[id].name] {
        assert FateMet(before, after, repo, existing, disk, disk.Keys, existing.Keys, id);
        assert id in after.rows && after.rows[id] == before.rows[id];
      }
    }
  }

  lemma RowMatchesDisk(before: Table, after: Table, repo: nat, existing: map<string, nat>, disk: map<string, string>,
                       id: nat)
    requires Names(before.rows, repo, existing) && Synced(before, after, repo, existing, disk)
    requires ShadowsMatch(before.rows, repo, existing, disk) && id in after.rows && after.rows[id].repo == repo
    ensures after.rows[id].name in disk && after.rows[id].sha == disk[after.rows[id].name]
  {
    if id in before.rows {
      assert FateMet(before, after, repo, existing, disk, disk.Keys, existing.Keys, id);
    }
  }

  lemma NameIsListed(before: Table, after: Table, repo: nat, existing: map<string, nat>, disk: map<string, string>,
                     name: string)
    requires Names(before.rows, repo, existing) && Synced(before, after, repo, existing, disk) && name in disk
    ensures Named(after.rows, repo, name) != {}
  {
    if name in existing {
      assert FateMet(before, after, repo, existing, disk, disk.Keys, existing.Keys, existing[name]);
      assert existing[name] in Named(after.rows, repo, name);
    } else {
      assert HasNew(before, after, name);
      var id :| id in after.rows && id !in before.rows && after.rows[id].name == name;
      assert id in Named(after.rows, repo, name);
    }
  }

  ghost predicate NoShadows(rows: map<nat, Row>, repo: nat, existing: map<string, nat>) {
    forall id :: id in rows && rows[id].repo == repo ==> Current(rows, repo, existing, id)
  }

  lemma DictionaryOfTable(rows: map<nat, Row>, repo: nat, order: seq<nat>)
    requires Lists(rows, repo, order)
    ensures Names(rows, repo, ByName(rows, order))
    ensures (forall name: string :: OneRow(rows, repo, name)) ==> NoShadows(rows, repo, ByName(rows, order))
  {
    var existing := ByName(rows, order);
    ByNameFacts(rows, order);
    if forall name: string :: OneRow(rows, repo, name) {
      forall id | id in rows && rows[id].repo == repo ensures Current(rows, repo, existing, id) {
        var name := rows[id].name;
        assert OneRow(rows, repo, name);
        assert id in Named(rows, repo, name) && existing[name] in Named(rows, repo, name);
      }
    }
  }

  lemma SyncIsSound(before: Table, after: Table, repo: nat, existing: map<string, nat>, disk: map<string, string>)
    requires Names(before.rows, repo, existing) && NoShadows(before.rows, repo, existing) && Bounded(before)
    requires Synced(before, after, repo, existing, disk)
    ensures Sound(after.rows, after.nextId, repo)
  {
    forall id | id in after.rows ensures id < after.nextId {
      if id in before.rows { assert id < before.nextId; }
    }
    forall name: string ensures OneRow(after.rows, repo, name) {
      forall i, j | i in Named(after.rows, repo, name) && j in Named(after.rows, repo, name) ensures i == j {
        CurrentOrNew(before, after, repo, existing, disk, i);
        CurrentOrNew(before, after, repo, existing, disk, j);
      }
    }
  }

  /** A table with one row per name ends with one row per name, so it agrees with the refs altogether. */
  lemma SyncRestoresAgreement(before: Table, after: Table, repo: nat, order: seq<nat>, disk: map<string, string>,
                              refs: map<string, string>)
    requires Sound(before.rows, before.nextId, repo) && Lists(before.rows, repo, order) && ReadsDisk(disk, refs)
    requires Synced(before, after, repo, ByName(before.rows, order), disk)
    ensures Sound(after.rows, after.nextId, repo) && Mirrors(refs, after.rows, repo)
  {
    DictionaryOfTable(before.rows, repo, order);
    SyncIsSound(before, after, repo, ByName(before.rows, order), disk);
    SyncRestoresMirrorIff(before, after, repo, ByName(before.rows, order), disk, refs);
  }

  lemma CurrentOrNew(before: Table, after: Table, repo: nat, existing: map<string, nat>, disk: map<string, string>,
                     id: nat)
    requires Names(before.rows, repo, existing) && Synced(before, after, repo, existing, disk)
    requires id in after.rows && after.rows[id].repo == repo
    requires id in before.rows && before.rows[id].repo == repo ==> Current(before.rows, repo, existing, id)
    ensures if id in before.rows then after.rows[id].name in existing && existing[after.rows[id].name] == id
            else after.rows[id].name !in existing
  {
    if id in before.rows {
      assert FateMet(before, after, repo, existing, disk, disk.Keys, existing.Keys, id);
    }
  }

  /** The rows of other repositories stay; a surviving name keeps its row, with its id and its protection. */
  lemma SyncKeepsRows(before: Table, after: Table, repo: nat, existing: map<string, nat>, disk: map<string, string>,
                      id: nat)
    requires Names(before.rows, repo, existing) && Synced(before, after, repo, existing, disk) && id in before.rows
    ensures before.rows[id].repo != repo ==> id in after.rows && after.rows[id] == before.rows[id]
    ensures before.rows[id].repo == repo && before.rows[id].name in disk ==>
              id in after.rows && after.rows[id].name == before.rows[id].name &&
                after.rows[id].protection == before.rows[id].protection
  {
    assert FateMet(before, after, repo, existing, disk, disk.Keys, existing.Keys, id);
  }

  /** A branch on disk that had no row has exactly one after the sync: at its commit, and without protection. */
  lemma SyncAddsRows(before: Table, after: Table, repo: nat, existing: map<string, nat>, disk: map<string, string>,
                     name: string)
    requires Names(before.rows, repo, existing) && Synced(before, after, repo, existing, disk)
    requires name in disk && forall id :: id in before.rows ==> !Is(before.rows[id], repo, name)
    ensures exists id :: id in after.rows && id !in before.rows && after.rows[id] == Row(repo, name, disk[name], None)
    ensures OneRow(after.rows, repo, name)
  {
    assert name !in existing;
    assert HasNew(before, after, name);
    var id :| id in after.rows && id !in before.rows && after.rows[id].name == name;
    assert after.rows[id] == Row(repo, name, disk[name], None);
    forall i | i in before.rows && i in after.rows ensures after.rows[i].name == before.rows[i].name {
      assert FateMet(before, after, repo, existing, disk, disk.Keys, existing.Keys, i);
    }
    forall i | i in before.rows && i in after.rows ensures after.rows[i].repo == before.rows[i].repo {
      assert FateMet(before, after, repo, existing, disk, disk.Keys, existing.Keys, i);
    }
  }

  /** Syncing a table that agrees with the refs changes nothing. */
  lemma SyncOfAgreementIsIdentity(before: Table, after: Table, repo: nat, existing: map<string, nat>,
                                  disk: map<string, string>, refs: map<string, string>)
    requires Names(before.rows, repo, existing) && ReadsDisk(disk, refs) && Synced(before, after, repo, existing, disk)
    requires Mirrors(refs, before.rows, repo)
    ensures after.rows == before.rows
  {
    forall id | id in before.rows ensures id in after.rows && after.rows[id] == before.rows[id] {
      assert FateMet(before, after, repo, existing, disk, disk.Keys, existing.Keys, id);
    }
    AllNamesListed(before.rows, repo, existing, disk, refs);
    assert forall id :: id in after.rows ==> id in before.rows;
  }

  lemma AllNamesListed(rows: map<nat, Row>, repo: nat, existing: map<string, nat>, disk: map<string, string>,
                       refs: map<string, string>)
    requires Names(rows, repo, existing) && ReadsDisk(disk, refs) && Mirrors(refs, rows, repo)
    ensures disk.Keys <= existing.Keys
  {
    forall name | name in disk ensures name in existing {
      assert Head(name) in refs;
      var id :| id in Named(rows, repo, name);
      assert rows[id].name in existing;
    }
  }
}
