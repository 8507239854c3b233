/**
 The cleaning script as a whole: its table declarations, its foreign-key
 edges, and the run that loads every table, checks each loaded table, and
 then checks every edge, in the order the script does.
 */
module Driver {
  import opened Tables
  import opened Findings
  import opened Loader
  import opened Quality
  import opened Integrity

  /** The tables the script loads, one per module-level variable. */
  datatype TableId =
    | Patients | Encounters | Providers | Medications | Procedures
    | Observations | Careplans | Conditions | Allergies
  {
    /** The name the table is reported under. */
    function Name(): string
    {
      match this
      case Patients => "patients"
      case Encounters => "encounters"
      case Providers => "providers"
      case Medications => "medications"
      case Procedures => "procedures"
      case Observations => "observations"
      case Careplans => "careplans"
      case Conditions => "conditions"
      case Allergies => "allergies"
    }

    /** The file the table is read from. */
    function File(): string
    {
      "files/" + Name() + ".csv"
    }

    /** The columns requested from the file (`usecols`). */
    function Usecols(): seq<string>
    {
      match this
      case Patients => ["Id"]
      case Encounters => ["Id", "PATIENT", "PROVIDER"]
      case Providers => ["Id"]
      case _ => ["PATIENT", "ENCOUNTER"]
    }

    /** The declared primary-key column, if any. */
    function Pk(): Option<string>
    {
      match this
      case Patients | Encounters | Providers => Some("Id")
      case _ => None
    }
  }

  /** The tables in load order, which is also the order they are checked in. */
  const LoadOrder: seq<TableId> :=
    [Patients, Encounters, Providers, Medications, Procedures, Observations, Careplans, Conditions, Allergies]

  /** A foreign-key edge: `table.column` must refer to `target.targetColumn`. */
  datatype FkEdge = FkEdge(table: TableId, column: string, target: TableId, targetColumn: string)

  /** The edges, in the order they are checked. */
  const Edges: seq<FkEdge> := [
    FkEdge(Encounters, "PATIENT", Patients, "Id"),
    FkEdge(Encounters, "PROVIDER", Providers, "Id"),
    FkEdge(Medications, "PATIENT", Patients, "Id"),
    FkEdge(Medications, "ENCOUNTER", Encounters, "Id"),
    FkEdge(Procedures, "PATIENT", Patients, "Id"),
    FkEdge(Procedures, "ENCOUNTER", Encounters, "Id"),
    FkEdge(Observations, "PATIENT", Patients, "Id"),
    FkEdge(Observations, "ENCOUNTER", Encounters, "Id"),
    FkEdge(Careplans, "PATIENT", Patients, "Id"),
    FkEdge(Careplans, "ENCOUNTER", Encounters, "Id"),
    FkEdge(Conditions, "PATIENT", Patients, "Id"),
    FkEdge(Conditions, "ENCOUNTER", Encounters, "Id"),
    FkEdge(Allergies, "PATIENT", Patients, "Id"),
    FkEdge(Allergies, "ENCOUNTER", Encounters, "Id")
  ]

  /** Whether the script ran to its end or stopped at an uncaught exception. */
  datatype Status = Completed | Aborted(error: string)

  /** The findings reported, in order, and how the run ended. */
  datatype Report = Report(findings: seq<Finding>, status: Status)

  // ---------------------------------------------------------------------------
  // Configuration

  /** The source column of `e` is requested for its table, and its target is
      the `Id` column of a table whose declared key is `Id`. */
  predicate EdgeWellFormed(e: FkEdge)
  {
    && e.column in e.table.Usecols()
    && e.targetColumn == "Id"
    && e.target.Pk() == Some("Id")
  }

  /** Every table is loaded, and loaded once. */
  lemma LoadOrderListsEveryTableOnce()
    ensures ListsEveryTable(LoadOrder)
    ensures forall i, j :: 0 <= i < j < |LoadOrder| ==> LoadOrder[i] != LoadOrder[j]
  {
    forall id: TableId ensures id in LoadOrder {
      var k :=
        match id
        case Patients => 0
        case Encounters => 1
        case Providers => 2
        case Medications => 3
        case Procedures => 4
        case Observations => 5
        case Careplans => 6
        case Conditions => 7
        case Allergies => 8;
      assert LoadOrder[k] == id;
    }
  }

  /** Every declared key column is among the requested columns of its table. */
  lemma KeysRequested()
    ensures forall id: TableId :: id.Pk().Some? ==> id.Pk().value in id.Usecols()
  {
  }

  /** Every edge starts at a requested column and ends at the `Id` key of a
      table declared with key `Id`. */
  lemma EdgesWellFormed()
    ensures forall e :: e in Edges ==> EdgeWellFormed(e)
  {
  }

  // ---------------------------------------------------------------------------
  // Loading: one `read_csv_safely` call per table, in load order

  /** `read_csv_safely(file, usecols)` for one table, where `readCsv(file)(enc)`
      is the outcome of `pd.read_csv` on that file with that encoding. */
  function LoadTable(id: TableId, readCsv: string -> string -> Attempt): Load
  {
    TryEncodings(Encodings, readCsv(id.File())).result
  }

  /** No table exactly when every encoding raised a decoding error; otherwise
      the table or the exception comes from one of the encodings. */
  lemma LoadTableOutcome(id: TableId, readCsv: string -> string -> Attempt)
    ensures var r := LoadTable(id, readCsv);
      && (r.Unreadable? <==>
            forall i :: 0 <= i < |Encodings| ==> readCsv(id.File())(Encodings[i]).DecodeError?)
      && (r.Loaded? ==>
            exists i :: 0 <= i < |Encodings| && readCsv(id.File())(Encodings[i]) == Parsed(r.table))
      && (r.Failed? ==>
            exists i :: 0 <= i < |Encodings| && readCsv(id.File())(Encodings[i]) == Raised(r.error))
  {
    FirstDecodableWins(Encodings, readCsv(id.File()));
  }

  /** The module-level table variables after loading (`None` for a table that
      no encoding could decode), the messages printed while loading, and
      whether loading ran to its end. */
  datatype Loading = Loading(env: map<TableId, Option<Table>>, findings: seq<Finding>, status: Status)

  /** Loads `ids` in order, where `load(id)` is what `read_csv_safely` does
      for table `id`; an exception other than a decoding error stops the
      script. */
  function LoadPhase(ids: seq<TableId>, load: TableId -> Load): (l: Loading)
    ensures l.status.Completed? <==> forall id :: id in ids ==> !load(id).Failed?
    ensures l.status.Aborted? ==>
      exists id :: id in ids && load(id) == Failed(l.status.error)
    ensures l.status.Completed? ==> forall id :: id in ids ==>
      id in l.env && l.env[id] == load(id).ToOption()
    ensures forall f :: f in l.findings ==>
      exists id :: id in ids && f == UnreadableFile(id.File()) && load(id).Unreadable?
    ensures l.status.Completed? ==> forall id :: id in ids && load(id).Unreadable? ==>
      UnreadableFile(id.File()) in l.findings
  {
    if ids == [] then Loading(map[], [], Completed)
    else
      var id := ids[0];
      match load(id)
      case Failed(e) => Loading(map[], [], Aborted(e))
      case Unreadable =>
        var rest := LoadPhase(ids[1..], load);
        Loading(rest.env[id := None], [UnreadableFile(id.File())] + rest.findings, rest.status)
      case Loaded(t) =>
        var rest := LoadPhase(ids[1..], load);
        Loading(rest.env[id := Some(t)], rest.findings, rest.status)
  }

  /** How many tables of `ids` are loaded before the first one whose load
      raises: all of them when none does. */
  function Attempted(ids: seq<TableId>, load: TableId -> Load): (n: nat)
    ensures n <= |ids|
    ensures forall i :: 0 <= i < n ==> !load(ids[i]).Failed?
    ensures n < |ids| ==> load(ids[n]).Failed?
  {
    if ids == [] || load(ids[0]).Failed? then 0
    else 1 + Attempted(ids[1..], load)
  }

  /** The "unable to read" messages for the undecodable tables of `ids`, one
      per table, in the order of `ids`. */
  function UnreadableMessages(ids: seq<TableId>, load: TableId -> Load): (r: seq<Finding>)
    ensures |r| <= |ids|
    ensures forall f :: f in r <==>
      exists id :: id in ids && load(id).Unreadable? && f == UnreadableFile(id.File())
  {
    if ids == [] then []
    else
      (if load(ids[0]).Unreadable? then [UnreadableFile(ids[0].File())] else [])
      + UnreadableMessages(ids[1..], load)
  }

  /** The positions from `lo` on of the tables that no encoding can decode. */
  ghost function UndecodableFrom(ids: seq<TableId>, lo: nat, load: TableId -> Load): set<int>
  {
    set i | lo <= i < |ids| && load(ids[i]).Unreadable?
  }

  lemma {:induction false} UnreadableMessagesFrom(ids: seq<TableId>, lo: nat, load: TableId -> Load)
    requires lo <= |ids|
    ensures |UnreadableMessages(ids[lo..], load)| == |UndecodableFrom(ids, lo, load)|
    decreases |ids| - lo
  {
    if lo < |ids| {
      UnreadableMessagesFrom(ids, lo + 1, load);
      assert ids[lo..][1..] == ids[lo + 1..];
      assert ids[lo..][0] == ids[lo];
      if load(ids[lo]).Unreadable? {
        assert UndecodableFrom(ids, lo, load) == {lo} + UndecodableFrom(ids, lo + 1, load);
      } else {
        assert UndecodableFrom(ids, lo, load) == UndecodableFrom(ids, lo + 1, load);
      }
    } else {
      assert UndecodableFrom(ids, lo, load) == {};
    }
  }

  /** One message per undecodable table: as many messages as positions of
      `ids` holding a table that no encoding can decode. */
  lemma UnreadableMessagesOncePerTable(ids: seq<TableId>, load: TableId -> Load)
    ensures |UnreadableMessages(ids, load)| == |set i | 0 <= i < |ids| && load(ids[i]).Unreadable?|
  {
    UnreadableMessagesFrom(ids, 0, load);
    assert ids[0..] == ids;
  }

  /** The messages of a non-empty prefix: the first table's, then the rest's. */
  lemma UnreadableMessagesOfPrefix(ids: seq<TableId>, n: nat, load: TableId -> Load)
    requires 0 < n <= |ids|
    ensures UnreadableMessages(ids[..n], load) ==
      (if load(ids[0]).Unreadable? then [UnreadableFile(ids[0].File())] else [])
      + UnreadableMessages(ids[1..][..n - 1], load)
  {
    assert ids[..n][0] == ids[0];
    assert ids[..n][1..] == ids[1..][..n - 1];
  }

  /** One table that does not raise: its message, if any, and then the rest. */
  lemma LoadPhaseStep(ids: seq<TableId>, load: TableId -> Load)
    requires ids != [] && !load(ids[0]).Failed?
    ensures LoadPhase(ids, load).findings ==
      (if load(ids[0]).Unreadable? then [UnreadableFile(ids[0].File())] else [])
      + LoadPhase(ids[1..], load).findings
    ensures LoadPhase(ids, load).status == LoadPhase(ids[1..], load).status
  {
    var id := ids[0];
    var rest := LoadPhase(ids[1..], load);
    if load(id).Unreadable? {
      assert LoadPhase(ids, load) == Loading(rest.env[id := None], [UnreadableFile(id.File())] + rest.findings, rest.status);
    } else {
      assert LoadPhase(ids, load) == Loading(rest.env[id := Some(load(id).table)], rest.findings, rest.status);
    }
  }

  /** The messages printed while loading are those of the undecodable tables
      before the first table whose load raises, in load order. */
  lemma {:induction false} LoadPhaseMessages(ids: seq<TableId>, load: TableId -> Load)
    ensures LoadPhase(ids, load).findings == UnreadableMessages(ids[..Attempted(ids, load)], load)
  {
    if ids != [] && !load(ids[0]).Failed? {
      var n := Attempted(ids, load);
      assert n == 1 + Attempted(ids[1..], load);
      LoadPhaseStep(ids, load);
      LoadPhaseMessages(ids[1..], load);
      UnreadableMessagesOfPrefix(ids, n, load);
    }
  }

  /** Loading aborts exactly when some table's load raises, with the
      exception of the first such table. */
  lemma {:induction false} LoadPhaseAbortsAtFirstFailure(ids: seq<TableId>, load: TableId -> Load)
    ensures var n := Attempted(ids, load);
      var l := LoadPhase(ids, load);
      && (l.status.Aborted? <==> n < |ids|)
      && (n < |ids| ==> l.status == Aborted(load(ids[n]).error))
  {
    if ids != [] && !load(ids[0]).Failed? {
      var n := Attempted(ids, load);
      var m := Attempted(ids[1..], load);
      assert n == 1 + m;
      LoadPhaseStep(ids, load);
      LoadPhaseAbortsAtFirstFailure(ids[1..], load);
      if n < |ids| {
        assert ids[n] == ids[1..][m];
      }
    }
  }

  /** Loading stops at the first table whose load raises, with that table's
      exception; the messages printed are exactly those of the undecodable
      tables loaded before it, once each and in load order. */
  lemma LoadPhaseStopsAtFirstFailure(ids: seq<TableId>, load: TableId -> Load)
    ensures var n := Attempted(ids, load);
      var l := LoadPhase(ids, load);
      && l.findings == UnreadableMessages(ids[..n], load)
      && (l.status.Aborted? <==> n < |ids|)
      && (n < |ids| ==> l.status == Aborted(load(ids[n]).error))
  {
    LoadPhaseMessages(ids, load);
    LoadPhaseAbortsAtFirstFailure(ids, load);
  }

  // ---------------------------------------------------------------------------
  // Single-table checks: the loop over the `tables` dictionary

  /** A finding of one of the single-table checks. */
  predicate IsTableFinding(f: Finding)
  {
    f.Checking? || f.NullsFound? || f.NoNulls? || IsKeyFinding(f)
  }

  /** A finding of the duplicate or the format check, which run on a key column. */
  predicate IsKeyFinding(f: Finding)
  {
    f.DuplicatesFound? || f.NoDuplicates? || f.InvalidCharacters?
  }

  /** Every finding in `fs` is a single-table finding naming the table `id`,
      and the duplicate and format findings name its declared key. */
  predicate FindingsAbout(id: TableId, fs: seq<Finding>)
  {
    forall f :: f in fs ==>
      IsTableFinding(f) && f.table == id.Name() && (IsKeyFinding(f) ==> id.Pk() == Some(f.column))
  }

  /** The duplicate check and then the format check on the key column `pk`. */
  function KeyChecks(t: Table, name: string, pk: string): (fs: seq<Finding>)
    requires pk in t.names
    ensures forall f :: f in fs ==> IsKeyFinding(f) && f.table == name && f.column == pk
  {
    [CheckDuplicates(t, name, pk)] + CheckDataTypes(t, name, [pk])
  }

  /** The checks run on one loaded table: its row count, the null check, and,
      when it has a declared key, the duplicate and format checks on that key.
      A key column missing from the table would raise `KeyError`. */
  function CheckTable(id: TableId, t: Table): (r: Report)
    ensures FindingsAbout(id, r.findings)
    ensures |r.findings| >= 2
    ensures r.findings[0] == Checking(id.Name(), t.rows)
    ensures r.findings[1] == CheckNulls(t, id.Name())
    ensures id.Pk().None? ==> r == Report(r.findings[..2], Completed)
    ensures id.Pk().Some? && id.Pk().value in t.names ==>
      && r.status.Completed?
      && r.findings[2..] == [CheckDuplicates(t, id.Name(), id.Pk().value)]
                            + CheckDataTypes(t, id.Name(), [id.Pk().value])
    ensures id.Pk().Some? && id.Pk().value !in t.names ==>
      r == Report([Checking(id.Name(), t.rows), CheckNulls(t, id.Name())], Aborted("KeyError: " + id.Pk().value))
  {
    var name := id.Name();
    var head := [Checking(name, t.rows), CheckNulls(t, name)];
    assert FindingsAbout(id, head) by {
      assert CheckNulls(t, name).table == name;
    }
    match id.Pk()
    case None => Report(head, Completed)
    case Some(pk) =>
      if pk in t.names then
        var keyed := KeyChecks(t, name, pk);
        assert (head + keyed)[2..] == keyed;
        assert FindingsAbout(id, head + keyed) by {
          assert forall f :: f in head + keyed ==> f in head || f in keyed;
        }
        Report(head + keyed, Completed)
      else
        Report(head, Aborted("KeyError: " + pk))
  }

  /** One iteration of the loop over the `tables` dictionary. */
  function CheckIfLoaded(id: TableId, table: Option<Table>): (r: Report)
    ensures forall f :: f in r.findings ==> IsTableFinding(f) && f.table == id.Name()
    ensures forall f :: f in r.findings && IsKeyFinding(f) ==> id.Pk() == Some(f.column)
    ensures table.None? ==> r == Report([], Completed)
    ensures table.Some? ==> r == CheckTable(id, table.value)
    ensures r.status.Aborted? <==>
      table.Some? && id.Pk().Some? && id.Pk().value !in table.value.names
  {
    match table
    case None => Report([], Completed)
    case Some(t) => CheckTable(id, t)
  }

  /** The loop over the `tables` dictionary: tables that failed to load are
      skipped, every loaded table gets the null check, and tables with a
      declared key get the duplicate and format checks on that key. */
  function QualityPhase(ids: seq<TableId>, env: map<TableId, Option<Table>>): (r: Report)
    requires forall id :: id in ids ==> id in env
    ensures forall f :: f in r.findings ==> IsTableFinding(f)
    ensures forall f :: f in r.findings && IsTableFinding(f) ==>
      exists id :: id in ids && env[id].Some? && f.table == id.Name()
    ensures forall f :: f in r.findings && IsKeyFinding(f) ==>
      exists id :: id in ids && env[id].Some? && f.table == id.Name() && id.Pk() == Some(f.column)
    ensures r.status.Aborted? <==>
      exists id :: id in ids && env[id].Some? && id.Pk().Some? && id.Pk().value !in env[id].value.names
  {
    if ids == [] then Report([], Completed)
    else
      var id := ids[0];
      var here := CheckIfLoaded(id, env[id]);
      if here.status.Aborted? then here
      else
        var rest := QualityPhase(ids[1..], env);
        Report(here.findings + rest.findings, rest.status)
  }

  /** The loop reports nothing but the checks of loaded tables: every finding
      is one that `CheckTable` reports for some loaded table. */
  lemma {:induction false} QualityPhaseReportsOnlyTableChecks(ids: seq<TableId>, env: map<TableId, Option<Table>>)
    requires forall id :: id in ids ==> id in env
    ensures forall f :: f in QualityPhase(ids, env).findings ==> FromTableCheck(f, ids, env)
  {
    if ids != [] {
      var id := ids[0];
      var here := CheckIfLoaded(id, env[id]);
      QualityPhaseStep(ids, env);
      QualityPhaseReportsOnlyTableChecks(ids[1..], env);
      forall f | f in here.findings ensures FromTableCheck(f, ids, env) {
        assert f in CheckTable(id, env[id].value).findings;
      }
      if !here.status.Aborted? {
        forall f | f in QualityPhase(ids[1..], env).findings ensures FromTableCheck(f, ids, env) {
          FromTableCheckWider(f, ids, env);
        }
      }
    }
  }

  /** `f` is a finding that `CheckTable` reports for some loaded table of `ids`. */
  ghost predicate FromTableCheck(f: Finding, ids: seq<TableId>, env: map<TableId, Option<Table>>)
    requires forall id :: id in ids ==> id in env
  {
    exists id :: id in ids && env[id].Some? && f in CheckTable(id, env[id].value).findings
  }

  lemma FromTableCheckWider(f: Finding, ids: seq<TableId>, env: map<TableId, Option<Table>>)
    requires ids != [] && forall id :: id in ids ==> id in env
    requires FromTableCheck(f, ids[1..], env)
    ensures FromTableCheck(f, ids, env)
  {
    var j :| j in ids[1..] && env[j].Some? && f in CheckTable(j, env[j].value).findings;
    assert j in ids;
  }

  /** One iteration of the loop: the first table's findings, then, unless it
      raised, the rest's. */
  lemma QualityPhaseStep(ids: seq<TableId>, env: map<TableId, Option<Table>>)
    requires ids != [] && forall id :: id in ids ==> id in env
    ensures var here := CheckIfLoaded(ids[0], env[ids[0]]);
      QualityPhase(ids, env).findings ==
        here.findings + (if here.status.Aborted? then [] else QualityPhase(ids[1..], env).findings)
  {
    var here := CheckIfLoaded(ids[0], env[ids[0]]);
    if here.status.Aborted? {
      assert here.findings + [] == here.findings;
    }
  }

  /** The findings `fs` hold the row-count message and the null check of the
      loaded table `t`, and, when `id` declares a key, the duplicate check and
      every finding of the format check on that key, which `t` holds. */
  ghost predicate TableCovered(id: TableId, t: Table, fs: seq<Finding>)
  {
    && Checking(id.Name(), t.rows) in fs
    && CheckNulls(t, id.Name()) in fs
    && (id.Pk().Some? ==>
          && id.Pk().value in t.names
          && CheckDuplicates(t, id.Name(), id.Pk().value) in fs
          && forall f :: f in CheckDataTypes(t, id.Name(), [id.Pk().value]) ==> f in fs)
  }

  lemma CheckTableCovers(id: TableId, t: Table)
    requires id.Pk().Some? ==> id.Pk().value in t.names
    ensures TableCovered(id, t, CheckTable(id, t).findings)
  {
    var fs := CheckTable(id, t).findings;
    assert fs[0] in fs;
    assert fs[1] in fs;
    if id.Pk().Some? {
      assert fs[2] in fs;
      assert forall f :: f in fs[2..] ==> f in fs;
    }
  }

  lemma TableCoveredAppend(id: TableId, t: Table, a: seq<Finding>, b: seq<Finding>)
    ensures TableCovered(id, t, a) ==> TableCovered(id, t, a + b)
    ensures TableCovered(id, t, b) ==> TableCovered(id, t, a + b)
  {
  }

  /** When the loop runs to its end, every loaded table has had its row-count
      message and its null check, and every loaded table with a declared key
      its duplicate check and every finding of its format check. */
  lemma {:induction false} QualityPhaseCoversLoadedTables(ids: seq<TableId>, env: map<TableId, Option<Table>>)
    requires forall id :: id in ids ==> id in env
    requires QualityPhase(ids, env).status.Completed?
    ensures forall id :: id in ids && env[id].Some? ==>
      TableCovered(id, env[id].value, QualityPhase(ids, env).findings)
  {
    if ids != [] {
      var id := ids[0];
      var here := CheckIfLoaded(id, env[id]);
      var rest := QualityPhase(ids[1..], env);
      var all := QualityPhase(ids, env).findings;
      assert !here.status.Aborted?;
      assert all == here.findings + rest.findings;
      QualityPhaseCoversLoadedTables(ids[1..], env);
      if env[id].Some? {
        CheckTableCovers(id, env[id].value);
      }
      forall j | j in ids && env[j].Some?
        ensures TableCovered(j, env[j].value, all)
      {
        TableCoveredAppend(j, env[j].value, here.findings, rest.findings);
      }
    }
  }

  // ---------------------------------------------------------------------------
  // Foreign-key checks: one `check_fk` call per edge

  /** The outcome of evaluating `variable[column]` on a table variable. */
  datatype Fetch = Got(values: Column) | Error(error: string)

  /** What subscripting a variable that holds `None` raises. */
  const NotSubscriptable := "TypeError: 'NoneType' object is not subscriptable"

  /** `variable[column]`: the column of a loaded table, or the exception that
      subscripting raises. */
  function Subscript(env: map<TableId, Option<Table>>, id: TableId, column: string): (r: Fetch)
    ensures r.Got? <==> id in env && env[id].Some? && column in env[id].value.names
    ensures r.Got? ==> r.values == Col(env[id].value, column)
    ensures id in env && env[id].None? ==> r == Error(NotSubscriptable)
  {
    if id !in env then Error("NameError: " + id.Name())
    else
      match env[id]
      case None => Error(NotSubscriptable)
      case Some(t) => if column in t.names then Got(Col(t, column)) else Error("KeyError: " + column)
  }

  /** Both arguments of the `check_fk` call for `e` evaluate without raising. */
  predicate Fetchable(env: map<TableId, Option<Table>>, e: FkEdge)
  {
    Subscript(env, e.table, e.column).Got? && Subscript(env, e.target, e.targetColumn).Got?
  }

  /** The exception raised while evaluating the arguments of the `check_fk`
      call for `e`: the source column is evaluated first. */
  function FetchError(env: map<TableId, Option<Table>>, e: FkEdge): string
    requires !Fetchable(env, e)
  {
    match Subscript(env, e.table, e.column)
    case Error(msg) => msg
    case Got(_) => Subscript(env, e.target, e.targetColumn).error
  }

  /** The finding `check_fk` reports for `e` once both arguments are evaluated. */
  function EdgeFinding(env: map<TableId, Option<Table>>, e: FkEdge): (f: Finding)
    requires Fetchable(env, e)
    ensures f.FkMissing? || f.FkValid?
    ensures f.table == e.table.Name() && f.fkColumn == e.column
  {
    CheckFk(e.table.Name(), e.column, Some(Subscript(env, e.table, e.column).values),
            e.targetColumn, Some(Subscript(env, e.target, e.targetColumn).values))
  }

  /** The `check_fk` calls in order. Each call's arguments are evaluated before
      the call, so a table variable holding `None` raises there and ends the
      script; `check_fk` itself never sees a missing column. */
  function FkPhase(edges: seq<FkEdge>, env: map<TableId, Option<Table>>): (r: Report)
    ensures |r.findings| <= |edges|
    ensures forall i :: 0 <= i < |r.findings| ==>
      Fetchable(env, edges[i]) && r.findings[i] == EdgeFinding(env, edges[i])
    ensures r.status.Completed? ==> |r.findings| == |edges|
    ensures r.status.Aborted? ==>
      && |r.findings| < |edges|
      && !Fetchable(env, edges[|r.findings|])
      && r.status.error == FetchError(env, edges[|r.findings|])
  {
    if edges == [] then Report([], Completed)
    else
      var e := edges[0];
      if !Fetchable(env, e) then Report([], Aborted(FetchError(env, e)))
      else
        var rest := FkPhase(edges[1..], env);
        var r := Report([EdgeFinding(env, e)] + rest.findings, rest.status);
        assert forall i :: 0 <= i < |r.findings| ==>
          Fetchable(env, edges[i]) && r.findings[i] == EdgeFinding(env, edges[i]) by {
          forall i | 1 <= i < |r.findings|
            ensures Fetchable(env, edges[i]) && r.findings[i] == EdgeFinding(env, edges[i])
          {
            assert edges[i] == edges[1..][i - 1];
          }
        }
        assert r.status.Aborted? ==> edges[|r.findings|] == edges[1..][|rest.findings|];
        r
  }

  // ---------------------------------------------------------------------------
  // The whole script

  /** The script from top to bottom: load every table, check each loaded table,
      then check every foreign-key edge; an uncaught exception ends it with the
      findings reported so far. */
  function Run(readCsv: string -> string -> Attempt): Report
  {
    RunWith(LoadOrder, Edges, id => LoadTable(id, readCsv))
  }

  /** The script over a given load order, edge list and loading outcome per table. */
  function RunWith(ids: seq<TableId>, edges: seq<FkEdge>, load: TableId -> Load): Report
  {
    var l := LoadPhase(ids, load);
    if l.status.Aborted? then Report(l.findings, l.status)
    else
      var q := QualityPhase(ids, l.env);
      if q.status.Aborted? then Report(l.findings + q.findings, q.status)
      else
        var fk := FkPhase(edges, l.env);
        Report(l.findings + q.findings + fk.findings, fk.status)
  }

  // ---------------------------------------------------------------------------
  // Properties of the run

  /** The foreign-key phase reports only `check_fk` findings, and never a skip. */
  lemma {:induction false} FkPhaseFindingKinds(edges: seq<FkEdge>, env: map<TableId, Option<Table>>)
    ensures forall f :: f in FkPhase(edges, env).findings ==> f.FkMissing? || f.FkValid?
  {
    if edges != [] && Fetchable(env, edges[0]) {
      FkPhaseFindingKinds(edges[1..], env);
    }
  }

  /** Every edge is checked in order until the first one whose arguments raise;
      the phase completes exactly when every edge's arguments evaluate. */
  lemma {:induction false} FkPhaseCompletesIff(edges: seq<FkEdge>, env: map<TableId, Option<Table>>)
    ensures FkPhase(edges, env).status.Completed? <==> forall i :: 0 <= i < |edges| ==> Fetchable(env, edges[i])
  {
    if edges != [] && Fetchable(env, edges[0]) {
      FkPhaseCompletesIff(edges[1..], env);
      assert forall i :: 1 <= i < |edges| ==> edges[i] == edges[1..][i - 1];
    }
  }

  /** `pd.read_csv` with `usecols` returns a table holding the requested
      columns whenever it returns one (a missing column raises instead). */
  ghost predicate HonoursUsecols(readCsv: string -> string -> Attempt)
  {
    forall id: TableId, enc: string :: readCsv(id.File())(enc).Parsed? ==>
      forall c :: c in id.Usecols() ==> c in readCsv(id.File())(enc).table.names
  }

  /** A table that loads holds the columns requested for it. */
  lemma LoadedTableHasRequestedColumns(id: TableId, readCsv: string -> string -> Attempt)
    requires HonoursUsecols(readCsv)
    requires LoadTable(id, readCsv).Loaded?
    ensures forall c :: c in id.Usecols() ==> c in LoadTable(id, readCsv).table.names
  {
    var parse := readCsv(id.File());
    FirstDecodableWins(Encodings, parse);
    var l := TryEncodings(Encodings, parse);
    assert parse(Encodings[|l.tried| - 1]).Parsed?;
  }

  /** `ids` names every table. */
  predicate ListsEveryTable(ids: seq<TableId>)
  {
    forall id: TableId :: id in ids
  }

  /** `env` holds, for every table, the loaded table or `None`. */
  ghost predicate EnvironmentOf(env: map<TableId, Option<Table>>, load: TableId -> Load)
  {
    forall id: TableId :: !load(id).Failed? && id in env && env[id] == load(id).ToOption()
  }

  /** After a completed load of every table, each table variable holds its
      table, or `None`. */
  lemma LoadedEnvironment(ids: seq<TableId>, load: TableId -> Load)
    requires ListsEveryTable(ids)
    requires LoadPhase(ids, load).status.Completed?
    ensures EnvironmentOf(LoadPhase(ids, load).env, load)
  {
  }

  /** The findings of a run whose loading completed are the loading messages
      followed by the single-table findings and, when that loop completed too,
      the foreign-key findings. */
  lemma RunWithParts(ids: seq<TableId>, edges: seq<FkEdge>, load: TableId -> Load)
    requires LoadPhase(ids, load).status.Completed?
    ensures var l := LoadPhase(ids, load);
      var q := QualityPhase(ids, l.env);
      RunWith(ids, edges, load).findings ==
        l.findings + q.findings + (if q.status.Completed? then FkPhase(edges, l.env).findings else [])
  {
  }

  /** A run whose loading and single-table loop both complete reports the
      three phases' findings in order and ends as the foreign-key phase does. */
  lemma RunWithCompleted(ids: seq<TableId>, edges: seq<FkEdge>, load: TableId -> Load)
    requires LoadPhase(ids, load).status.Completed?
    requires QualityPhase(ids, LoadPhase(ids, load).env).status.Completed?
    ensures var l := LoadPhase(ids, load);
      var fk := FkPhase(edges, l.env);
      RunWith(ids, edges, load) == Report(l.findings + QualityPhase(ids, l.env).findings + fk.findings, fk.status)
  {
  }

  /** The findings of a run are the loading messages, then the single-table
      findings, then the foreign-key findings, each phase producing only its
      own kind. */
  lemma RunFindingKinds(ids: seq<TableId>, edges: seq<FkEdge>, load: TableId -> Load)
    ensures forall f :: f in RunWith(ids, edges, load).findings ==>
      f.UnreadableFile? || IsTableFinding(f) || f.FkMissing? || f.FkValid?
  {
    var l := LoadPhase(ids, load);
    if l.status.Completed? {
      FkPhaseFindingKinds(edges, l.env);
    }
  }

  /** The skip branch of `check_fk` is never reached from the script: a table
      that failed to load raises before `check_fk` is called. */
  lemma RunNeverSkipsForeignKeyCheck(readCsv: string -> string -> Attempt)
    ensures forall f :: f in Run(readCsv).findings ==> !f.FkSkipped?
  {
    RunWithNeverSkips(LoadOrder, Edges, id => LoadTable(id, readCsv));
  }

  lemma RunWithNeverSkips(ids: seq<TableId>, edges: seq<FkEdge>, load: TableId -> Load)
    ensures forall f :: f in RunWith(ids, edges, load).findings ==> !f.FkSkipped?
  {
    RunFindingKinds(ids, edges, load);
  }

  /** Every single-table finding in `fs` names a table of `ids` that loaded,
      and every duplicate or format finding names that table's declared key. */
  ghost predicate ChecksOnlyLoaded(fs: seq<Finding>, ids: seq<TableId>, load: TableId -> Load)
  {
    forall f :: f in fs && IsTableFinding(f) ==>
      exists id ::
        id in ids && load(id).Loaded? && f.table == id.Name()
        && (IsKeyFinding(f) ==> id.Pk() == Some(f.column))
  }

  /** The single-table loop after a completed load reports only on tables that
      loaded, and on the declared key of each. */
  lemma QualityReportsLoadedTables(ids: seq<TableId>, load: TableId -> Load)
    requires LoadPhase(ids, load).status.Completed?
    ensures ChecksOnlyLoaded(QualityPhase(ids, LoadPhase(ids, load).env).findings, ids, load)
  {
    var l := LoadPhase(ids, load);
    var q := QualityPhase(ids, l.env);
    forall f | f in q.findings && IsTableFinding(f)
      ensures exists id ::
                id in ids && load(id).Loaded? && f.table == id.Name()
                && (IsKeyFinding(f) ==> id.Pk() == Some(f.column))
    {
      if IsKeyFinding(f) {
        var id :| id in ids && l.env[id].Some? && f.table == id.Name() && id.Pk() == Some(f.column);
        assert load(id).Loaded?;
      } else {
        var id :| id in ids && l.env[id].Some? && f.table == id.Name();
        assert load(id).Loaded?;
      }
    }
  }

  /** Loading messages and foreign-key findings around the single-table
      findings add no single-table finding. */
  lemma ChecksOnlyLoadedFramed(a: seq<Finding>, b: seq<Finding>, c: seq<Finding>,
                               ids: seq<TableId>, load: TableId -> Load)
    requires forall f :: f in a ==> f.UnreadableFile?
    requires forall f :: f in c ==> f.FkMissing? || f.FkValid?
    requires ChecksOnlyLoaded(b, ids, load)
    ensures ChecksOnlyLoaded(a + b + c, ids, load)
  {
  }

  /** Single-table findings only ever name tables that loaded, and the
      duplicate and format findings only ever name a table's declared key. */
  lemma RunChecksOnlyLoadedTables(ids: seq<TableId>, edges: seq<FkEdge>, load: TableId -> Load)
    ensures ChecksOnlyLoaded(RunWith(ids, edges, load).findings, ids, load)
  {
    var l := LoadPhase(ids, load);
    if l.status.Completed? {
      var q := QualityPhase(ids, l.env);
      var tail := if q.status.Completed? then FkPhase(edges, l.env).findings else [];
      RunWithParts(ids, edges, load);
      QualityReportsLoadedTables(ids, load);
      FkPhaseFindingKinds(edges, l.env);
      assert forall f :: f in l.findings ==> f.UnreadableFile?;
      ChecksOnlyLoadedFramed(l.findings, q.findings, tail, ids, load);
    }
  }

  /** Every single-table finding of `fs` is one that `CheckTable` reports
      for some table of `ids` that loaded. */
  ghost predicate OnlyTableChecks(fs: seq<Finding>, ids: seq<TableId>, load: TableId -> Load)
  {
    forall f :: f in fs && IsTableFinding(f) ==>
      exists id :: id in ids && load(id).Loaded? && f in CheckTable(id, load(id).table).findings
  }

  /** The single-table loop after a completed load reports only what
      `CheckTable` reports for the tables that loaded. */
  lemma QualityReportsOnlyTableChecks(ids: seq<TableId>, load: TableId -> Load)
    requires LoadPhase(ids, load).status.Completed?
    ensures OnlyTableChecks(QualityPhase(ids, LoadPhase(ids, load).env).findings, ids, load)
  {
    var l := LoadPhase(ids, load);
    var q := QualityPhase(ids, l.env);
    QualityPhaseReportsOnlyTableChecks(ids, l.env);
    forall f | f in q.findings && IsTableFinding(f)
      ensures exists id :: id in ids && load(id).Loaded? && f in CheckTable(id, load(id).table).findings
    {
      var id :| id in ids && l.env[id].Some? && f in CheckTable(id, l.env[id].value).findings;
      assert load(id).Loaded?;
    }
  }

  /** Loading messages and foreign-key findings around the single-table
      findings add no single-table finding. */
  lemma OnlyTableChecksFramed(a: seq<Finding>, b: seq<Finding>, c: seq<Finding>,
                              ids: seq<TableId>, load: TableId -> Load)
    requires forall f :: f in a ==> f.UnreadableFile?
    requires forall f :: f in c ==> f.FkMissing? || f.FkValid?
    requires OnlyTableChecks(b, ids, load)
    ensures OnlyTableChecks(a + b + c, ids, load)
  {
  }

  /** In a whole run, every single-table finding is one that `CheckTable`
      reports for a table that loaded: nothing else is printed by the loop. */
  lemma RunReportsOnlyTableChecks(ids: seq<TableId>, edges: seq<FkEdge>, load: TableId -> Load)
    ensures OnlyTableChecks(RunWith(ids, edges, load).findings, ids, load)
  {
    var l := LoadPhase(ids, load);
    if l.status.Completed? {
      var q := QualityPhase(ids, l.env);
      var tail := if q.status.Completed? then FkPhase(edges, l.env).findings else [];
      RunWithParts(ids, edges, load);
      QualityReportsOnlyTableChecks(ids, load);
      FkPhaseFindingKinds(edges, l.env);
      assert forall f :: f in l.findings ==> f.UnreadableFile?;
      OnlyTableChecksFramed(l.findings, q.findings, tail, ids, load);
    }
  }

  /** Every table that loads holds the columns requested for it. */
  ghost predicate KeepsRequestedColumns(load: TableId -> Load)
  {
    forall id: TableId :: load(id).Loaded? ==>
      forall c :: c in id.Usecols() ==> c in load(id).table.names
  }

  /** A `pd.read_csv` that honours `usecols` loads tables that keep their
      requested columns. */
  lemma ReadCsvKeepsRequestedColumns(readCsv: string -> string -> Attempt)
    requires HonoursUsecols(readCsv)
    ensures KeepsRequestedColumns(id => LoadTable(id, readCsv))
  {
    forall id: TableId | LoadTable(id, readCsv).Loaded?
      ensures forall c :: c in id.Usecols() ==> c in LoadTable(id, readCsv).table.names
    {
      LoadedTableHasRequestedColumns(id, readCsv);
    }
  }

  /** Table `id` is the source or the target of some edge of `edges`. */
  predicate OnAnEdge(id: TableId, edges: seq<FkEdge>)
  {
    exists e :: e in edges && (e.table == id || e.target == id)
  }

  /** Every table is the source or the target of some edge. */
  lemma EveryTableOnAnEdge()
    ensures forall id: TableId :: OnAnEdge(id, Edges)
  {
    forall id: TableId ensures OnAnEdge(id, Edges) {
      var k :=
        match id
        case Patients => 0
        case Encounters => 0
        case Providers => 1
        case Medications => 2
        case Procedures => 4
        case Observations => 6
        case Careplans => 8
        case Conditions => 10
        case Allergies => 12;
      assert Edges[k] in Edges;
    }
  }

  /** The arguments of the `check_fk` call for a well-formed edge evaluate
      exactly when both of its tables loaded; otherwise subscripting `None`
      raises. */
  lemma EdgeOutcome(env: map<TableId, Option<Table>>, e: FkEdge, load: TableId -> Load)
    requires EdgeWellFormed(e)
    requires EnvironmentOf(env, load)
    requires KeepsRequestedColumns(load)
    ensures Fetchable(env, e) <==> load(e.table).Loaded? && load(e.target).Loaded?
    ensures !Fetchable(env, e) ==> FetchError(env, e) == NotSubscriptable
  {
    assert e.targetColumn in e.target.Usecols();
  }

  /** With every table variable assigned and every loaded table holding its
      requested columns, the single-table loop runs to its end. */
  lemma QualityPhaseCompletes(ids: seq<TableId>, env: map<TableId, Option<Table>>, load: TableId -> Load)
    requires EnvironmentOf(env, load)
    requires KeepsRequestedColumns(load)
    ensures QualityPhase(ids, env).status.Completed?
  {
    KeysRequested();
  }

  /** `f` is what `check_fk` reports for edge `e` when both of its tables
      loaded with the columns the edge names. */
  ghost predicate EdgeChecked(f: Finding, e: FkEdge, load: TableId -> Load)
  {
    && load(e.table).Loaded? && load(e.target).Loaded?
    && e.column in load(e.table).table.names
    && e.targetColumn in load(e.target).table.names
    && f == CheckFk(e.table.Name(), e.column, Some(Col(load(e.table).table, e.column)),
                    e.targetColumn, Some(Col(load(e.target).table, e.targetColumn)))
  }

  /** The last `|edges|` findings of `fs` are the `check_fk` findings of
      `edges`, in order. */
  ghost predicate EndsWithEdgeChecks(fs: seq<Finding>, edges: seq<FkEdge>, load: TableId -> Load)
  {
    && |edges| <= |fs|
    && forall i :: 0 <= i < |edges| ==> EdgeChecked(fs[|fs| - |edges| + i], edges[i], load)
  }

  /** With every table loaded, each edge is checked in order on the loaded
      columns, and the phase runs to its end. */
  lemma FkPhaseChecksEveryEdge(edges: seq<FkEdge>, env: map<TableId, Option<Table>>, load: TableId -> Load)
    requires forall e :: e in edges ==> EdgeWellFormed(e)
    requires EnvironmentOf(env, load)
    requires KeepsRequestedColumns(load)
    requires forall id: TableId :: load(id).Loaded?
    ensures FkPhase(edges, env).status == Completed
    ensures EndsWithEdgeChecks(FkPhase(edges, env).findings, edges, load)
  {
    forall i | 0 <= i < |edges|
      ensures Fetchable(env, edges[i]) && EdgeChecked(EdgeFinding(env, edges[i]), edges[i], load)
    {
      EdgeCheckedWhenLoaded(env, edges[i], load);
    }
    FkPhaseCompletesIff(edges, env);
  }

  /** With both of its tables loaded, a well-formed edge is checked on the
      loaded columns. */
  lemma EdgeCheckedWhenLoaded(env: map<TableId, Option<Table>>, e: FkEdge, load: TableId -> Load)
    requires EdgeWellFormed(e)
    requires EnvironmentOf(env, load)
    requires KeepsRequestedColumns(load)
    requires load(e.table).Loaded? && load(e.target).Loaded?
    ensures Fetchable(env, e) && EdgeChecked(EdgeFinding(env, e), e, load)
  {
    EdgeOutcome(env, e, load);
    assert e.targetColumn in e.target.Usecols();
  }

  /** A suffix keeps its edge checks when findings are put in front of it. */
  lemma EdgeChecksAfterPrefix(a: seq<Finding>, b: seq<Finding>, edges: seq<FkEdge>, load: TableId -> Load)
    requires EndsWithEdgeChecks(b, edges, load)
    ensures EndsWithEdgeChecks(a + b, edges, load)
  {
    forall i | 0 <= i < |edges|
      ensures EdgeChecked((a + b)[|a + b| - |edges| + i], edges[i], load)
    {
      assert (a + b)[|a + b| - |edges| + i] == b[|b| - |edges| + i];
    }
  }

  /** No finding of `fs` is a loading message. */
  predicate NoLoadingMessages(fs: seq<Finding>)
  {
    forall f :: f in fs ==> !f.UnreadableFile?
  }

  /** The single-table loop prints no loading message. */
  lemma QualityPhaseNoLoadingMessages(ids: seq<TableId>, env: map<TableId, Option<Table>>)
    requires forall id :: id in ids ==> id in env
    ensures NoLoadingMessages(QualityPhase(ids, env).findings)
  {
  }

  /** The foreign-key calls print no loading message. */
  lemma FkPhaseNoLoadingMessages(edges: seq<FkEdge>, env: map<TableId, Option<Table>>)
    ensures NoLoadingMessages(FkPhase(edges, env).findings)
  {
    FkPhaseFindingKinds(edges, env);
  }

  /** Joining reports without loading messages adds none. */
  lemma NoLoadingMessagesConcat(a: seq<Finding>, b: seq<Finding>, c: seq<Finding>)
    requires NoLoadingMessages(a) && NoLoadingMessages(b) && NoLoadingMessages(c)
    ensures NoLoadingMessages(a + b + c)
  {
  }

  /** When every file loads with its requested columns, the script runs to
      its end, prints no loading message, and finishes with one `check_fk`
      finding per edge, in edge order, computed on the loaded columns. */
  lemma RunCompletesWhenAllTablesLoad(ids: seq<TableId>, edges: seq<FkEdge>, load: TableId -> Load)
    requires ListsEveryTable(ids)
    requires forall e :: e in edges ==> EdgeWellFormed(e)
    requires KeepsRequestedColumns(load)
    requires forall id: TableId :: load(id).Loaded?
    ensures RunWith(ids, edges, load).status == Completed
    ensures NoLoadingMessages(RunWith(ids, edges, load).findings)
    ensures EndsWithEdgeChecks(RunWith(ids, edges, load).findings, edges, load)
  {
    var l := LoadPhase(ids, load);
    LoadedEnvironment(ids, load);
    QualityPhaseCompletes(ids, l.env, load);
    RunWithCompleted(ids, edges, load);
    var q := QualityPhase(ids, l.env);
    var fk := FkPhase(edges, l.env);
    assert NoLoadingMessages(l.findings);
    QualityPhaseNoLoadingMessages(ids, l.env);
    FkPhaseNoLoadingMessages(edges, l.env);
    NoLoadingMessagesConcat(l.findings, q.findings, fk.findings);
    FkPhaseChecksEveryEdge(edges, l.env, load);
    EdgeChecksAfterPrefix(l.findings + q.findings, fk.findings, edges, load);
  }

  /** When no file raises but some file cannot be decoded, every such table
      gets its loading message, and the run ends with the `TypeError` of
      subscripting a table variable left as `None`. */
  lemma RunStopsAtUnloadedTable(ids: seq<TableId>, edges: seq<FkEdge>, load: TableId -> Load)
    requires ListsEveryTable(ids)
    requires forall e :: e in edges ==> EdgeWellFormed(e)
    requires forall id: TableId :: OnAnEdge(id, edges)
    requires KeepsRequestedColumns(load)
    requires forall id: TableId :: !load(id).Failed?
    requires exists id: TableId :: load(id).Unreadable?
    ensures RunWith(ids, edges, load).status == Aborted(NotSubscriptable)
    ensures forall id: TableId :: load(id).Unreadable? ==> UnreadableFile(id.File()) in RunWith(ids, edges, load).findings
  {
    var l := LoadPhase(ids, load);
    LoadedEnvironment(ids, load);
    QualityPhaseCompletes(ids, l.env, load);
    RunWithParts(ids, edges, load);
    var u :| load(u).Unreadable?;
    assert OnAnEdge(u, edges);
    var e :| e in edges && (e.table == u || e.target == u);
    EdgeOutcome(l.env, e, load);
    FkPhaseCompletesIff(edges, l.env);
    var fk := FkPhase(edges, l.env);
    assert fk.status.Aborted?;
    EdgeOutcome(l.env, edges[|fk.findings|], load);
  }

  /** `Run` with every file decodable and `usecols` honoured runs to its end
      with one foreign-key finding per edge, after the single-table findings. */
  lemma RunOnReadableFiles(readCsv: string -> string -> Attempt)
    requires HonoursUsecols(readCsv)
    requires forall id: TableId :: LoadTable(id, readCsv).Loaded?
    ensures Run(readCsv).status == Completed
    ensures EndsWithEdgeChecks(Run(readCsv).findings, Edges, id => LoadTable(id, readCsv))
  {
    ReadCsvKeepsRequestedColumns(readCsv);
    LoadOrderListsEveryTableOnce();
    EdgesWellFormed();
    RunCompletesWhenAllTablesLoad(LoadOrder, Edges, id => LoadTable(id, readCsv));
  }

  /** `Run` where some file decodes under no encoding and none raises ends
      with the `NoneType` subscript error. */
  lemma RunOnUndecodableFile(readCsv: string -> string -> Attempt)
    requires HonoursUsecols(readCsv)
    requires forall id: TableId :: !LoadTable(id, readCsv).Failed?
    requires exists id: TableId :: LoadTable(id, readCsv).Unreadable?
    ensures Run(readCsv).status == Aborted(NotSubscriptable)
  {
    ReadCsvKeepsRequestedColumns(readCsv);
    LoadOrderListsEveryTableOnce();
    EdgesWellFormed();
    EveryTableOnAnEdge();
    var load := id => LoadTable(id, readCsv);
    var u :| LoadTable(u, readCsv).Unreadable?;
    assert load(u).Unreadable?;
    RunStopsAtUnloadedTable(LoadOrder, Edges, load);
  }
}
