/** The cache database as an object: what lies at the database path (its
    kind, the version table and the two cache tables) and whether this
    object's connection is open. `init_or_reset_db` and the methods of the
    Python class `DB` change it in place; each method is proved against the
    value-level definitions of StoreSpec and SchemaSpec. */
module Cache {
  import opened Outcomes
  import opened StoreSpec
  import opened SchemaSpec

  /** What kind of file lies at the database path. */
  datatype FileKind = NoFile | ForeignFile | SqliteFile

  class DB {
    var kind: FileKind
    /** The `version` table (meaningful while kind == SqliteFile). */
    var version: VersionTable
    /** The `rule_run` table: fingerprint to run id. */
    var runs: map<Fingerprint, RunId>
    /** The `target_output` table: (run, target) to output fingerprint. */
    var outputs: map<OutputKey, Fingerprint>
    /** The connection to the file is open; it closes when the scope of
        `DB.connect` ends, after which no operation may be used. */
    var isOpen: bool

    /** The two cache tables. */
    function State(): Tables
      reads this
    {
      Tables(runs, outputs)
    }

    /** The file at the path. */
    function Snapshot(): Disk
      reads this
    {
      match kind
      case NoFile => Absent
      case ForeignFile => Foreign
      case SqliteFile => Sqlite(version, State())
    }

    /** The primary key of `rule_run` holds, and an open connection is only
        ever to a compatible store. */
    ghost predicate Valid()
      reads this
    {
      && IdsInjective(runs)
      && (isOpen ==> kind == SqliteFile && Compatible(Snapshot()))
    }

    /** The file `d` as found at the path, with no connection open yet. */
    constructor (d: Disk)
      requires WellFormedDisk(d)
      ensures Valid() && !isOpen && Snapshot() == d
    {
      match d {
        case Absent =>
          kind, version, runs, outputs := NoFile, NoVersionTable, map[], map[];
        case Foreign =>
          kind, version, runs, outputs := ForeignFile, NoVersionTable, map[], map[];
        case Sqlite(v, t) =>
          kind, version, runs, outputs := SqliteFile, v, t.runs, t.outputs;
      }
      isOpen := false;
    }

    /** `init_or_reset_db(path)`: open the file, keep it if its version row
        matches, otherwise close it, delete it and recreate the tables with
        one version row. The connection is open exactly when it succeeds. */
    method InitOrReset(env: ResetEnv) returns (outcome: Outcome)
      requires Valid()
      modifies this
      ensures Valid()
      ensures Reset(outcome, Snapshot()) == InitOrResetSpec(old(Snapshot()), env)
      ensures isOpen <==> outcome == Pass
    {
      if !env.openOk {
        isOpen := false;
        return Fail(CannotOpen);
      }
      if kind == NoFile {
        // sqlite3_connect creates an empty database at an absent path
        kind, version, runs, outputs := SqliteFile, NoVersionTable, map[], map[];
      }
      isOpen := true;
      var current := StoredVersion(Snapshot());
      if current != DbVersion {
        isOpen := false;
        if env.unlink == UnlinkFailed {
          return Fail(CannotDelete);
        }
        // the file is gone, whether this unlink or someone else removed it
        kind, version, runs, outputs := NoFile, NoVersionTable, map[], map[];
        if env.recreate == ReopenFailed {
          return Fail(CannotRecreate);
        }
        kind := SqliteFile;
        isOpen := true;
        // `with con:` — CREATE TABLE version, outside any transaction
        if env.recreate == SchemaFailed(false) {
          isOpen := false;
          return Fail(CannotRecreate);
        }
        version := VersionRows(map[]);
        // the other two CREATE TABLE statements, then the version row
        if env.recreate.SchemaFailed? {
          // only the INSERT is rolled back; the version table stays, empty
          isOpen := false;
          return Fail(CannotRecreate);
        }
        // INSERT INTO version(value): `magic` takes its default
        version := VersionRows(version.rows[VersionMagicNumber := DbVersion]);
      }
      return Pass;
    }

    /** The end of the `DB.connect` scope: the connection is closed, the file
        is left as it is. */
    method Close()
      requires Valid()
      modifies this
      ensures Valid() && !isOpen && Snapshot() == old(Snapshot())
    {
      isOpen := false;
    }

    /** `fetch_rule_previous_run(fp)`: the id of the `rule_run` row holding
        `fp`, or None when there is none. */
    function FetchRulePreviousRun(fp: Fingerprint): (r: Option<RunId>)
      reads this
      requires isOpen
      ensures r.Some? <==> fp in runs
      ensures r.Some? ==> runs[fp] == r.value
    {
      LookupRun(State(), fp)
    }

    /** `fetch_target_output_fingerprint(run, target)`: the output fingerprint
        recorded for `target` under `run`, or None when there is none. */
    function FetchTargetOutputFingerprint(run: RunId, target: TargetId): (r: Option<Fingerprint>)
      reads this
      requires isOpen
      ensures r.Some? <==> OutputKey(run, target) in outputs
      ensures r.Some? ==> outputs[OutputKey(run, target)] == r.value
    {
      LookupOutput(State(), run, target)
    }

    /** `set_rule_previous_run(fp, outs)`: in one transaction, upsert the run,
        resolve its id, delete its output rows and insert `outs`. A repeated
        target violates UNIQUE(run, target); the transaction then rolls back,
        leaving both tables as they were. `newId` is the id the allocator
        would hand out for a new row. */
    method SetRulePreviousRun(fp: Fingerprint, outs: seq<(TargetId, Fingerprint)>)
      returns (res: Result<RunId>, ghost newId: RunId)
      requires Valid() && isOpen
      modifies this
      ensures Valid() && isOpen && kind == old(kind) && version == old(version)
      ensures IsFreshId(old(State()), newId)
      ensures var spec := RecordRun(old(State()), fp, outs, newId);
              && (spec.Ok? ==> res == Ok(spec.value.run) && State() == spec.value.tables)
              && (spec.Err? ==> res == Err(spec.error) && State() == old(State()))
      ensures res.Err? <==> HasDuplicateTarget(outs)
      ensures res.Ok? ==> FetchRulePreviousRun(fp) == Some(res.value)
      ensures res.Ok? ==> forall target :: FetchTargetOutputFingerprint(res.value, target) == Paired(outs, target)
      ensures res.Ok? ==> forall run, target :: run != res.value ==>
                FetchTargetOutputFingerprint(run, target) == LookupOutput(old(State()), run, target)
      ensures runs.Keys >= old(runs.Keys) && forall f :: f in old(runs) ==> runs[f] == old(runs[f])
    {
      // `with self.con:` — a failure below restores these
      var savedRuns, savedOutputs := runs, outputs;
      FreshIdExists(State());
      if fp in runs {
        // ON CONFLICT(fingerprint): the row and its id stay as they are
        newId :| IsFreshId(State(), newId);
      } else {
        var id :| IsFreshId(State(), id);
        runs := runs[fp := id];
        newId := id;
      }
      assert runs == UpsertRun(savedRuns, fp, newId);
      assert IdsInjective(runs) by {
        if fp !in savedRuns {
          RecordRunKeepsIdsInjective(Tables(savedRuns, savedOutputs), fp, [], newId);
        }
      }
      var runId := runs[fp];
      outputs := map k | k in outputs && k.run != runId :: outputs[k];
      var ok := InsertOutputs(runId, outs);
      if !ok {
        // UNIQUE(run, target) failed: the transaction rolls back
        runs, outputs := savedRuns, savedOutputs;
        return Err(IntegrityError), newId;
      }
      RecordRunResolvesId(Tables(savedRuns, savedOutputs), fp, outs, newId);
      RecordRunReplacesOutputs(Tables(savedRuns, savedOutputs), fp, outs, newId);
      RecordRunKeepsOtherOutputs(Tables(savedRuns, savedOutputs), fp, outs, newId);
      RecordRunKeepsRuns(Tables(savedRuns, savedOutputs), fp, outs, newId);
      return Ok(runId), newId;
    }

    /** The `executemany` of SetRulePreviousRun: insert one `target_output`
        row per entry of `outs`, in order, into a table that holds no row of
        `runId`. It stops at the first entry whose (run, target) is already
        there; the caller's transaction then undoes the partial insertion. */
    method InsertOutputs(runId: RunId, outs: seq<(TargetId, Fingerprint)>) returns (ok: bool)
      requires forall k :: k in outputs ==> k.run != runId
      modifies this`outputs
      ensures ok <==> !HasDuplicateTarget(outs)
      ensures ok ==> outputs == old(outputs) + OutputRows(runId, outs)
    {
      var i := 0;
      while i < |outs|
        invariant 0 <= i <= |outs|
        invariant outputs == old(outputs) + OutputRows(runId, outs[..i])
        invariant !HasDuplicateTarget(outs[..i])
      {
        var key := OutputKey(runId, outs[i].0);
        InsertNext(old(outputs), runId, outs, i);
        if key in outputs {
          InsertedTargetRepeats(runId, outs, i);
          return false;
        }
        NewTargetKeepsDistinct(runId, outs, i);
        outputs := outputs[key := outs[i].1];
        i := i + 1;
      }
      assert outs[..|outs|] == outs;
      return true;
    }
  }
}
