/** The ArchiveChangedColumn plugin: an append-only log of column changes, and the row as it
    was at an earlier time, rebuilt from that log. */
module ChangeHistory {
  import opened Wrappers

  /** A column value. nil and false are the two values Ruby takes for untrue. */
  datatype Val = Null | False | Time(t: int) | Data(text: string) {
    predicate Truthy() {
      Time? || Data?
    }
  }

  /** No name occurs twice. */
  predicate Distinct(s: seq<string>) {
    s == [] || (Distinct(s[..|s| - 1]) && s[|s| - 1] !in s[..|s| - 1])
  }

  lemma {:induction false} DistinctPlaces(s: seq<string>)
    requires Distinct(s)
    ensures forall i, j :: 0 <= i < j < |s| ==> s[i] != s[j]
  {
    if s != [] {
      var init := s[..|s| - 1];
      DistinctPlaces(init);
      assert forall i :: 0 <= i < |init| ==> s[i] == init[i];
      assert forall i :: 0 <= i < |init| ==> init[i] in init;
    }
  }

  type Row = map<string, Val>

  /** db_schema: the columns in order, which of them are text or blob, boolean, or NOT NULL, and
      their defaults. */
  datatype Schema = Schema(columns: seq<string>, large: set<string>, booleans: set<string>, required: set<string>,
                           defaults: map<string, Val>) {
    ghost predicate Valid() {
      && Distinct(columns)
      && "id" in columns && "created_at" in columns && "terminated_at" in columns
      && defaults.Keys == ColumnSet()
    }

    function ColumnSet(): set<string> {
      set c | c in columns
    }

    /** A row the database stores: no NULL in a required column, false only in a boolean one. */
    predicate Accepts(row: Row)
      requires row.Keys == ColumnSet()
    {
      forall c :: c in columns ==> (row[c] == Null ==> c !in required) && (row[c] == False ==> c in booleans)
    }

    /** The column never holds nil or false at creation under another default. */
    predicate Faithful(c: string)
      requires Valid() && c in columns
    {
      c == "created_at" || ((defaults[c] == Null || c in required) && (c in booleans ==> defaults[c] == False))
    }
  }

  /** A row of the history table. */
  datatype Entry = Entry(uuid: string, attr: string, vchar: Val, blob: Val, createdAt: int) {
    function Value(): Val {
      if blob != Null then blob else vchar
    }
  }

  datatype Db = Db(rows: map<string, Row>, history: seq<Entry>)

  // ----- writing -----

  function EntryFor(schema: Schema, uuid: string, c: string, v: Val, now: int): Entry {
    if c in schema.large then Entry(uuid, c, Null, v, now) else Entry(uuid, c, v, Null, now)
  }

  function Entries(schema: Schema, uuid: string, cols: seq<string>, vals: Row, now: int): (es: seq<Entry>)
    requires forall c :: c in cols ==> c in vals
    ensures |es| == |cols|
  {
    if cols == [] then []
    else
      var n := |cols| - 1;
      Entries(schema, uuid, cols[..n], vals, now) + [EntryFor(schema, uuid, cols[n], vals[cols[n]], now)]
  }

  /** Before an insert: what was assigned, or else the default. */
  function LoggedAtCreation(schema: Schema, given: Row): (vals: Row)
    requires schema.Valid()
    ensures vals.Keys == schema.ColumnSet()
  {
    map c | c in schema.columns ::
      if c in given && given[c].Truthy() then given[c] else schema.defaults[c]
  }

  /** What the database stores: assigned columns as they are, nil included; defaults for the rest. */
  function InsertedRow(schema: Schema, pk: Val, given: Row): (row: Row)
    requires schema.Valid()
    ensures row.Keys == schema.ColumnSet()
  {
    map c | c in schema.columns ::
      if c == "id" then pk else if c in given then given[c] else schema.defaults[c]
  }

  /** The columns an assignment really changes, in schema order. */
  function ChangedColumns(cols: seq<string>, row: Row, changes: Row): (r: seq<string>)
    requires forall c :: c in cols ==> c in row
    ensures forall c :: c in r <==> c in cols && c in changes && changes[c] != row[c]
  {
    if cols == [] then []
    else
      var n := |cols| - 1;
      var r := ChangedColumns(cols[..n], row, changes);
      assert forall c :: c in cols <==> c == cols[n] || c in cols[..n];
      if cols[n] in changes && changes[cols[n]] != row[cols[n]] then r + [cols[n]] else r
  }

  function UpdatedRow(row: Row, cols: seq<string>, changes: Row): (r: Row)
    requires forall c :: c in cols ==> c in changes
    ensures r.Keys == row.Keys
  {
    map c | c in row :: if c in cols then changes[c] else row[c]
  }

  datatype Event =
    | Create(uuid: string, pk: Val, given: Row, now: int)
    | Update(uuid: string, changes: Row, now: int)

  /** The assigned columns of a create, with the time stamp the timestamps plugin adds. */
  function Stamped(given: Row, now: int): Row {
    given["created_at" := Time(now)]
  }

  ghost predicate RowsComplete(schema: Schema, rows: map<string, Row>) {
    forall u :: u in rows ==> rows[u].Keys == schema.ColumnSet()
  }

  predicate Storable(schema: Schema, e: Event)
    requires schema.Valid() && e.Create?
  {
    schema.Accepts(InsertedRow(schema, e.pk, Stamped(e.given, e.now)))
  }

  /** The row an event writes, if any: a second create of a uuid is refused, and so is a row the
      database does not store. */
  function RowWritten(schema: Schema, rows: map<string, Row>, e: Event): (r: Option<Row>)
    requires schema.Valid() && RowsComplete(schema, rows)
    ensures r.Some? ==> (e.Create? <==> e.uuid !in rows)
    ensures r.Some? ==> r.value.Keys == schema.ColumnSet() && schema.Accepts(r.value)
  {
    match e
    case Create(uuid, pk, given, now) =>
      if uuid in rows || !Storable(schema, e) then None else Some(InsertedRow(schema, pk, Stamped(given, now)))
    case Update(uuid, changes, _) =>
      if uuid !in rows then None
      else
        var row := UpdatedRow(rows[uuid], ChangedColumns(schema.columns, rows[uuid], changes), changes);
        if schema.Accepts(row) then Some(row) else None
  }

  /** What an event adds to the log; the entries of a refused one are rolled back. */
  function EntriesWritten(schema: Schema, rows: map<string, Row>, e: Event): seq<Entry>
    requires schema.Valid() && RowsComplete(schema, rows)
  {
    if RowWritten(schema, rows, e).None? then []
    else match e
      case Create(uuid, pk, given, now) =>
        Entries(schema, uuid, schema.columns, LoggedAtCreation(schema, Stamped(given, now)), now)
      case Update(uuid, changes, now) =>
        Entries(schema, uuid, ChangedColumns(schema.columns, rows[uuid], changes), changes, now)
  }

  function Apply(schema: Schema, db: Db, e: Event): (r: Db)
    requires schema.Valid() && RowsComplete(schema, db.rows)
    ensures RowsComplete(schema, r.rows)
  {
    var row := RowWritten(schema, db.rows, e);
    Db(if row.Some? then db.rows[e.uuid := row.value] else db.rows, db.history + EntriesWritten(schema, db.rows, e))
  }

  // ----- reading -----

  predicate Matches(e: Entry, uuid: string, c: string, at: int) {
    e.uuid == uuid && e.attr == c && e.createdAt <= at
  }

  /** The newest entry of an attribute up to `at`. */
  function Newest(history: seq<Entry>, uuid: string, c: string, at: int): (r: Option<Entry>)
    ensures r.Some? ==> r.value in history && Matches(r.value, uuid, c, at)
  {
    if history == [] then None
    else
      var n := |history| - 1;
      var best := Newest(history[..n], uuid, c, at);
      if Matches(history[n], uuid, c, at) && (best.None? || history[n].createdAt > best.value.createdAt)
      then Some(history[n]) else best
  }

  predicate InLifeSpan(row: Row, at: int)
    requires "created_at" in row && "terminated_at" in row
  {
    && !(row["created_at"].Time? && row["created_at"].t > at)
    && !(row["terminated_at"].Time? && row["terminated_at"].t < at)
  }

  function PastRow(row: Row, history: seq<Entry>, uuid: string, at: int): Row {
    map c | c in row :: PastValue(row[c], history, uuid, c, at)
  }

  function PastValue(current: Val, history: seq<Entry>, uuid: string, c: string, at: int): Val {
    var h := Newest(history, uuid, c, at);
    if h.Some? then h.value.Value() else current
  }

  function HistorySnapshot(schema: Schema, db: Db, uuid: string, at: int): Result<Row, string>
    requires schema.Valid() && RowsComplete(schema, db.rows) && uuid in db.rows
  {
    if InLifeSpan(db.rows[uuid], at) then Ok(PastRow(db.rows[uuid], db.history, uuid, at))
    else Err("not in the range of the object's life span")
  }

  // ----- the tables -----

  class ArchivedTable {
    const schema: Schema
    var rows: map<string, Row>
    var history: seq<Entry>

    ghost predicate Valid()
      reads this
    {
      schema.Valid() && RowsComplete(schema, rows)
    }

    ghost function State(): Db
      reads this
    {
      Db(rows, history)
    }

    constructor (schema: Schema)
      requires schema.Valid()
      ensures Valid() && this.schema == schema && State() == Db(map[], [])
    {
      this.schema := schema;
      rows, history := map[], [];
    }

    method StoreChanges(uuid: string, cols: seq<string>, vals: Row, now: int)
      requires forall c :: c in cols ==> c in vals
      modifies this`history
      ensures history == old(history) + Entries(schema, uuid, cols, vals, now)
    {
      for i := 0 to |cols|
        invariant history == old(history) + Entries(schema, uuid, cols[..i], vals, now)
      {
        assert cols[..i + 1][..i] == cols[..i];
        history := history + [EntryFor(schema, uuid, cols[i], vals[cols[i]], now)];
      }
      assert cols[..|cols|] == cols;
    }

    method Create(uuid: string, pk: Val, given: Row, now: int) returns (ok: bool)
      requires Valid()
      modifies this
      ensures Valid() && ok == (uuid !in old(rows) && Storable(schema, Event.Create(uuid, pk, given, now)))
      ensures State() == Apply(schema, old(State()), Event.Create(uuid, pk, given, now))
    {
      var g := Stamped(given, now);
      var row := InsertedRow(schema, pk, g);
      ok := uuid !in rows && schema.Accepts(row);
      if ok {
        StoreChanges(uuid, schema.columns, LoggedAtCreation(schema, g), now);
        rows := rows[uuid := row];
      }
    }

    method Update(uuid: string, changes: Row, now: int) returns (ok: bool)
      requires Valid() && uuid in rows
      modifies this
      ensures Valid() && ok == RowWritten(schema, old(rows), Event.Update(uuid, changes, now)).Some?
      ensures State() == Apply(schema, old(State()), Event.Update(uuid, changes, now))
    {
      var cols := ChangedColumns(schema.columns, rows[uuid], changes);
      var row := UpdatedRow(rows[uuid], cols, changes);
      ok := schema.Accepts(row);
      ghost var written := RowWritten(schema, rows, Event.Update(uuid, changes, now));
      assert written == if ok then Some(row) else None;
      if ok {
        StoreChanges(uuid, cols, changes, now);
        rows := rows[uuid := row];
      } else {
        assert history + [] == history;
      }
    }

    /** Starts from a copy of the current row and overwrites it attribute by attribute. */
    method Snapshot(uuid: string, at: int) returns (r: Result<Row, string>)
      requires Valid() && uuid in rows
      ensures r == HistorySnapshot(schema, State(), uuid, at)
    {
      if !InLifeSpan(rows[uuid], at) {
        return Err("not in the range of the object's life span");
      }
      var ss := OverwriteColumns(schema.columns, rows[uuid], history, uuid, at);
      r := Ok(ss);
    }
  }

  method OverwriteColumns(columns: seq<string>, row: Row, history: seq<Entry>, uuid: string, at: int) returns (ss: Row)
    requires forall c :: c in row <==> c in columns
    requires Distinct(columns)
    ensures ss == PastRow(row, history, uuid, at)
  {
    ss := row;
    DistinctPlaces(columns);
    for i := 0 to |columns|
      invariant ss.Keys == row.Keys
      invariant forall j :: 0 <= j < i ==> ss[columns[j]] == PastValue(row[columns[j]], history, uuid, columns[j], at)
      invariant forall j :: i <= j < |columns| ==> ss[columns[j]] == row[columns[j]]
    {
      var c := columns[i];
      var h := Newest(history, uuid, c, at);
      if h.Some? {
        ss := ss[c := h.value.Value()];
      }
    }
    forall c | c in row ensures ss[c] == PastValue(row[c], history, uuid, c, at) {
      var j :| 0 <= j < |columns| && columns[j] == c;
    }
  }

  // ----- the log against the past states -----

  ghost predicate InOrder(events: seq<Event>) {
    forall i, j :: 0 <= i < j < |events| ==> events[i].now < events[j].now
  }

  /** No event writes the primary key or the creation time. */
  ghost predicate LeavesStampsAlone(events: seq<Event>) {
    forall i :: 0 <= i < |events| ==> LeavesStamps(events[i])
  }

  predicate LeavesStamps(e: Event) {
    var written := if e.Create? then e.given else e.changes;
    "id" !in written && "created_at" !in written
  }

  function After(schema: Schema, events: seq<Event>): (db: Db)
    requires schema.Valid()
    ensures RowsComplete(schema, db.rows)
  {
    if events == [] then Db(map[], [])
    else Apply(schema, After(schema, events[..|events| - 1]), events[|events| - 1])
  }

  /** The events up to time `at`. */
  function UpTo(events: seq<Event>, at: int): seq<Event> {
    if events == [] || events[|events| - 1].now <= at then events else UpTo(events[..|events| - 1], at)
  }

  predicate AllBefore(h: seq<Entry>, now: int) {
    forall i :: 0 <= i < |h| ==> h[i].createdAt < now
  }

  lemma EntryAppended(h: seq<Entry>, e: Entry, uuid: string, c: string, at: int)
    ensures var best, r := Newest(h, uuid, c, at), Newest(h + [e], uuid, c, at);
            r == if Matches(e, uuid, c, at) && (best.None? || e.createdAt > best.value.createdAt) then Some(e) else best
  {
    assert (h + [e])[..|h|] == h;
  }

  lemma {:induction false} BlockAppended(schema: Schema, h: seq<Entry>, owner: string, cols: seq<string>, vals: Row,
                                         now: int, uuid: string, c: string, at: int)
    requires (forall d :: d in cols ==> d in vals) && AllBefore(h, now)
    ensures var r := Newest(h + Entries(schema, owner, cols, vals, now), uuid, c, at);
            if owner == uuid && c in cols && now <= at then r == Some(EntryFor(schema, uuid, c, vals[c], now))
            else r == Newest(h, uuid, c, at)
  {
    if cols == [] {
      assert h + [] == h;
    } else {
      var n := |cols| - 1;
      var es := Entries(schema, owner, cols[..n], vals, now);
      var e := EntryFor(schema, owner, cols[n], vals[cols[n]], now);
      BlockAppended(schema, h, owner, cols[..n], vals, now, uuid, c, at);
      EntryAppended(h + es, e, uuid, c, at);
      assert h + (es + [e]) == h + es + [e];
      assert c in cols <==> c == cols[n] || c in cols[..n];
      var before := Newest(h, uuid, c, at);
      assert before.Some? ==> before.value.createdAt < now;
    }
  }

  predicate AllAt(es: seq<Entry>, t: int) {
    forall i :: 0 <= i < |es| ==> es[i].createdAt == t
  }

  lemma {:induction false} EntryTimes(schema: Schema, owner: string, cols: seq<string>, vals: Row, t: int)
    requires forall d :: d in cols ==> d in vals
    ensures AllAt(Entries(schema, owner, cols, vals, t), t)
  {
    if cols != [] {
      EntryTimes(schema, owner, cols[..|cols| - 1], vals, t);
    }
  }

  lemma EventTimes(schema: Schema, rows: map<string, Row>, e: Event)
    requires schema.Valid() && RowsComplete(schema, rows)
    ensures AllAt(EntriesWritten(schema, rows, e), e.now)
  {
    match e
    case Create(uuid, pk, given, now) =>
      EntryTimes(schema, uuid, schema.columns, LoggedAtCreation(schema, Stamped(given, now)), now);
    case Update(uuid, changes, now) =>
      if uuid in rows {
        EntryTimes(schema, uuid, ChangedColumns(schema.columns, rows[uuid], changes), changes, now);
      }
  }

  predicate AllEarlier(events: seq<Event>, now: int) {
    forall i :: 0 <= i < |events| ==> events[i].now < now
  }

  lemma {:induction false} LogTimes(schema: Schema, events: seq<Event>, now: int)
    requires schema.Valid() && AllEarlier(events, now)
    ensures AllBefore(After(schema, events).history, now)
  {
    if events != [] {
      var n := |events| - 1;
      LogTimes(schema, events[..n], now);
      EventTimes(schema, After(schema, events[..n]).rows, events[n]);
    }
  }

  // ----- the theorem -----

  /** The value a column had at a time: in the row left by the events up to then. */
  function ValueAt(schema: Schema, events: seq<Event>, uuid: string, c: string, at: int): Val
    requires schema.Valid()
  {
    var rows := After(schema, UpTo(events, at)).rows;
    if uuid in rows && c in rows[uuid] then rows[uuid][c] else Null
  }

  /** What the log says about a column up to a time. */
  function Logged(schema: Schema, events: seq<Event>, uuid: string, c: string, at: int): Option<Val>
    requires schema.Valid()
  {
    var h := Newest(After(schema, events).history, uuid, c, at);
    if h.Some? then Some(h.value.Value()) else None
  }

  /** The create that made the row: the first one the database did not refuse. */
  function Creation(schema: Schema, events: seq<Event>, uuid: string): (r: Option<Event>)
    requires schema.Valid()
    ensures r.Some? ==> r.value in events && r.value.Create? && r.value.uuid == uuid && Storable(schema, r.value)
  {
    if events == [] then None
    else
      var n := |events| - 1;
      var r := Creation(schema, events[..n], uuid);
      if r.Some? then r
      else if events[n].Create? && events[n].uuid == uuid && Storable(schema, events[n]) then Some(events[n]) else None
  }

  /** A create logs a column truly when nothing was assigned to it, or a value that is neither
      nil nor false, or the default itself. */
  predicate LogsTruly(schema: Schema, create: Event, c: string)
    requires schema.Valid() && create.Create? && c in schema.columns
  {
    c !in create.given || create.given[c].Truthy() || create.given[c] == schema.defaults[c]
  }

  /** What an event logs for a column. */
  function LoggedBy(schema: Schema, db: Db, e: Event, uuid: string, c: string): Option<Val>
    requires schema.Valid() && RowsComplete(schema, db.rows) && c in schema.columns
  {
    if e.uuid != uuid || RowWritten(schema, db.rows, e).None? then None
    else match e
      case Create(_, _, given, now) => Some(LoggedAtCreation(schema, Stamped(given, now))[c])
      case Update(_, changes, _) =>
        if c in changes && changes[c] != db.rows[uuid][c] then Some(changes[c]) else None
  }

  function ValueOf(h: Option<Entry>): Option<Val> {
    if h.Some? then Some(h.value.Value()) else None
  }

  lemma {:induction false} AllColumnsLogged(schema: Schema, h: seq<Entry>, owner: string, vals: Row, now: int,
                                            uuid: string, c: string, at: int)
    requires schema.Valid() && vals.Keys == schema.ColumnSet() && c in schema.columns && AllBefore(h, now)
    ensures ValueOf(Newest(h + Entries(schema, owner, schema.columns, vals, now), uuid, c, at))
         == if owner == uuid && now <= at then Some(vals[c]) else ValueOf(Newest(h, uuid, c, at))
  {
    BlockAppended(schema, h, owner, schema.columns, vals, now, uuid, c, at);
  }

  lemma {:induction false} ChangesLogged(schema: Schema, h: seq<Entry>, owner: string, row: Row, changes: Row, now: int,
                                         uuid: string, c: string, at: int)
    requires schema.Valid() && row.Keys == schema.ColumnSet() && c in schema.columns && AllBefore(h, now)
    ensures var cols := ChangedColumns(schema.columns, row, changes);
            var logged := ValueOf(Newest(h + Entries(schema, owner, cols, changes, now), uuid, c, at));
            logged == if owner == uuid && c in cols && now <= at then Some(changes[c]) else ValueOf(Newest(h, uuid, c, at))
  {
    BlockAppended(schema, h, owner, ChangedColumns(schema.columns, row, changes), changes, now, uuid, c, at);
  }

  lemma EventAppendsToLog(schema: Schema, db: Db, e: Event, uuid: string, c: string, at: int)
    requires schema.Valid() && RowsComplete(schema, db.rows) && c in schema.columns
    requires AllBefore(db.history, e.now)
    ensures ValueOf(Newest(Apply(schema, db, e).history, uuid, c, at))
         == if LoggedBy(schema, db, e, uuid, c).Some? && e.now <= at then LoggedBy(schema, db, e, uuid, c)
            else ValueOf(Newest(db.history, uuid, c, at))
  {
    assert db.history + [] == db.history;
    match e
    case Create(owner, pk, given, now) =>
      AllColumnsLogged(schema, db.history, owner, LoggedAtCreation(schema, Stamped(given, now)), now, uuid, c, at);
    case Update(owner, changes, now) =>
      if owner in db.rows {
        ChangesLogged(schema, db.history, owner, db.rows[owner], changes, now, uuid, c, at);
      }
  }

  lemma {:induction false} RowsAreCreated(schema: Schema, events: seq<Event>, uuid: string)
    requires schema.Valid()
    ensures uuid in After(schema, events).rows <==> Creation(schema, events, uuid).Some?
  {
    if events != [] {
      RowsAreCreated(schema, events[..|events| - 1], uuid);
    }
  }

  lemma {:induction false} CreateWritesRow(schema: Schema, e: Event, c: string)
    requires schema.Valid() && e.Create? && LeavesStamps(e) && c in schema.columns && c != "id"
    ensures var g := Stamped(e.given, e.now);
            LogsTruly(schema, e, c) <==> LoggedAtCreation(schema, g)[c] == InsertedRow(schema, e.pk, g)[c]
  {
    var g := Stamped(e.given, e.now);
    assert c != "created_at" ==> (c in g <==> c in e.given) && (c in g ==> g[c] == e.given[c]);
  }

  /** An event changes the stored value exactly as it logs it, but for an untrue creation. */
  lemma {:induction false} EventChangesRow(schema: Schema, db: Db, e: Event, uuid: string, c: string)
    requires schema.Valid() && RowsComplete(schema, db.rows) && c in schema.columns && c != "id"
    requires LeavesStamps(e)
    ensures var rows, logged := Apply(schema, db, e).rows, LoggedBy(schema, db, e, uuid, c);
            if uuid in db.rows then uuid in rows && rows[uuid][c] == (if logged.Some? then logged.value else db.rows[uuid][c])
            else if e.Create? && e.uuid == uuid && Storable(schema, e) then
              uuid in rows && logged.Some? && (LogsTruly(schema, e, c) <==> logged.value == rows[uuid][c])
            else uuid !in rows && logged.None?
  {
    if e.uuid != uuid || RowWritten(schema, db.rows, e).None? {
      EventLeavesRow(schema, db, e, uuid, c);
    } else if e.Create? {
      CreateWritesRow(schema, e, c);
    } else {
      UpdateWritesRow(schema, db.rows[uuid], e.changes, c);
    }
  }

  lemma EventLeavesRow(schema: Schema, db: Db, e: Event, uuid: string, c: string)
    requires schema.Valid() && RowsComplete(schema, db.rows) && c in schema.columns
    requires e.uuid != uuid || RowWritten(schema, db.rows, e).None?
    ensures var rows := Apply(schema, db, e).rows;
            && (uuid in rows <==> uuid in db.rows) && (uuid in rows ==> rows[uuid] == db.rows[uuid])
            && LoggedBy(schema, db, e, uuid, c).None?
  {
  }

  lemma UpdateWritesRow(schema: Schema, row: Row, changes: Row, c: string)
    requires schema.Valid() && row.Keys == schema.ColumnSet() && c in schema.columns
    ensures UpdatedRow(row, ChangedColumns(schema.columns, row, changes), changes)[c]
         == if c in changes && changes[c] != row[c] then changes[c] else row[c]
  {
  }

  ghost predicate LogAgrees(schema: Schema, events: seq<Event>, uuid: string, c: string, at: int)
    requires schema.Valid() && c in schema.columns
  {
    var logged := Logged(schema, events, uuid, c, at);
    match Creation(schema, events, uuid)
    case None => logged == None
    case Some(create) =>
      if at < create.now then logged == None
      else
        && logged.Some?
        && (LogsTruly(schema, create, c) ==> logged == Some(ValueAt(schema, events, uuid, c, at)))
        && (at == create.now && logged == Some(ValueAt(schema, events, uuid, c, at)) ==> LogsTruly(schema, create, c))
  }

  /** The log answers for every time from the creation on, and answers with the value the
      column had then whenever the creation was logged truly. */
  lemma {:induction false} LogIsPast(schema: Schema, events: seq<Event>, uuid: string, c: string, at: int)
    requires schema.Valid() && InOrder(events) && LeavesStampsAlone(events)
    requires c in schema.columns && c != "id"
    ensures LogAgrees(schema, events, uuid, c, at)
  {
    if events != [] {
      var n := |events| - 1;
      var init, e := events[..n], events[n];
      LogIsPast(schema, init, uuid, c, at);
      LogTimes(schema, init, e.now);
      LogStep(schema, events, init, e, uuid, c, at);
    }
  }

  lemma {:induction false} LogStep(schema: Schema, events: seq<Event>, init: seq<Event>, e: Event, uuid: string,
                                   c: string, at: int)
    requires schema.Valid() && c in schema.columns && c != "id"
    requires events != [] && init == events[..|events| - 1] && e == events[|events| - 1]
    requires LeavesStamps(e) && AllEarlier(init, e.now)
    requires AllBefore(After(schema, init).history, e.now)
    requires LogAgrees(schema, init, uuid, c, at)
    ensures LogAgrees(schema, events, uuid, c, at)
  {
    var db := After(schema, init);
    assert After(schema, events) == Apply(schema, db, e);
    EventAppendsToLog(schema, db, e, uuid, c, at);
    if e.now > at {
      LogStepLater(schema, events, init, e, uuid, c, at);
    } else {
      LogStepNow(schema, events, init, e, uuid, c, at);
    }
  }

  /** An event up to `at` changes what the log says and the row in the same way. */
  lemma LogStepNow(schema: Schema, events: seq<Event>, init: seq<Event>, e: Event, uuid: string, c: string, at: int)
    requires schema.Valid() && c in schema.columns && c != "id" && e.now <= at
    requires events != [] && init == events[..|events| - 1] && e == events[|events| - 1]
    requires LeavesStamps(e) && AllEarlier(init, e.now)
    requires var logged := LoggedBy(schema, After(schema, init), e, uuid, c);
             Logged(schema, events, uuid, c, at) == if logged.Some? then logged else Logged(schema, init, uuid, c, at)
    requires LogAgrees(schema, init, uuid, c, at)
    ensures LogAgrees(schema, events, uuid, c, at)
  {
    var db := After(schema, init);
    assert After(schema, events) == Apply(schema, db, e);
    assert UpTo(init, at) == init && UpTo(events, at) == events;
    RowsAreCreated(schema, init, uuid);
    EventChangesRow(schema, db, e, uuid, c);
    assert Creation(schema, init, uuid).Some? ==> Creation(schema, init, uuid).value.now < e.now;
  }

  /** An event after `at` changes neither what the log says up to `at` nor the past. */
  lemma LogStepLater(schema: Schema, events: seq<Event>, init: seq<Event>, e: Event, uuid: string, c: string, at: int)
    requires schema.Valid() && c in schema.columns && e.now > at
    requires events != [] && init == events[..|events| - 1] && e == events[|events| - 1]
    requires Logged(schema, events, uuid, c, at) == Logged(schema, init, uuid, c, at)
    requires LogAgrees(schema, init, uuid, c, at)
    ensures LogAgrees(schema, events, uuid, c, at)
  {
    assert UpTo(events, at) == UpTo(init, at);
    if Creation(schema, init, uuid).None? {
      assert Creation(schema, events, uuid).Some? ==> Creation(schema, events, uuid).value == e;
    }
  }

  lemma {:induction false} CreationTimeIsKept(schema: Schema, events: seq<Event>, uuid: string)
    requires schema.Valid() && LeavesStampsAlone(events) && Creation(schema, events, uuid).Some?
    ensures var rows := After(schema, events).rows;
            uuid in rows && rows[uuid]["created_at"] == Time(Creation(schema, events, uuid).value.now)
  {
    var n := |events| - 1;
    var init, e := events[..n], events[n];
    RowsAreCreated(schema, init, uuid);
    assert LeavesStamps(e) && "created_at" in schema.columns;
    EventChangesRow(schema, After(schema, init), e, uuid, "created_at");
    if Creation(schema, init, uuid).Some? {
      CreationTimeIsKept(schema, init, uuid);
    }
  }

  predicate SnapshotAgrees(schema: Schema, events: seq<Event>, uuid: string, c: string, at: int)
    requires schema.Valid() && uuid in After(schema, events).rows && c in schema.columns
  {
    var ss := HistorySnapshot(schema, After(schema, events), uuid, at);
    ss.Ok? && ss.value[c] == ValueAt(schema, events, uuid, c, at)
  }

  /** A snapshot inside the life span gives a column the value it had, when the creation was
      logged truly; at the creation time itself only then. */
  lemma {:induction false} SnapshotRestoresPast(schema: Schema, events: seq<Event>, uuid: string, c: string, at: int)
    requires schema.Valid() && InOrder(events) && LeavesStampsAlone(events)
    requires c in schema.columns && c != "id" && Creation(schema, events, uuid).Some?
    ensures uuid in After(schema, events).rows
    ensures InLifeSpan(After(schema, events).rows[uuid], at) && LogsTruly(schema, Creation(schema, events, uuid).value, c)
            ==> SnapshotAgrees(schema, events, uuid, c, at)
    ensures at == Creation(schema, events, uuid).value.now && SnapshotAgrees(schema, events, uuid, c, at)
            ==> LogsTruly(schema, Creation(schema, events, uuid).value, c)
  {
    CreationTimeIsKept(schema, events, uuid);
    LogIsPast(schema, events, uuid, c, at);
  }

  /** Over its whole life span an object's history is right in a column exactly when its
      creation was logged truly there. */
  lemma {:induction false} HistoryIsExact(schema: Schema, events: seq<Event>, uuid: string, c: string)
    requires schema.Valid() && InOrder(events) && LeavesStampsAlone(events)
    requires c in schema.columns && c != "id" && Creation(schema, events, uuid).Some?
    ensures uuid in After(schema, events).rows
    ensures var row, create := After(schema, events).rows[uuid], Creation(schema, events, uuid).value;
            InLifeSpan(row, create.now) ==>
              ((forall at :: InLifeSpan(row, at) ==> SnapshotAgrees(schema, events, uuid, c, at))
               <==> LogsTruly(schema, create, c))
  {
    var create := Creation(schema, events, uuid).value;
    SnapshotRestoresPast(schema, events, uuid, c, create.now);
    forall at | InLifeSpan(After(schema, events).rows[uuid], at) && LogsTruly(schema, create, c)
      ensures SnapshotAgrees(schema, events, uuid, c, at)
    {
      SnapshotRestoresPast(schema, events, uuid, c, at);
    }
  }

  // ----- what one call stores and logs -----

  /** A value the column may hold. */
  predicate Fitting(schema: Schema, c: string, v: Val) {
    (v == Null ==> c !in schema.required) && (v == False ==> c in schema.booleans)
  }

  ghost predicate RowsAccepted(schema: Schema, rows: map<string, Row>) {
    RowsComplete(schema, rows) && forall u :: u in rows ==> schema.Accepts(rows[u])
  }

  /** Every stored row is one the database accepts, in every run. */
  lemma {:induction false} ReachableRowsAccepted(schema: Schema, events: seq<Event>)
    requires schema.Valid()
    ensures RowsAccepted(schema, After(schema, events).rows)
  {
    if events != [] {
      ReachableRowsAccepted(schema, events[..|events| - 1]);
    }
  }

  /** The new entries are one for each logged column, stamped now; large columns are kept as blobs. */
  ghost predicate LogsExactly(schema: Schema, added: seq<Entry>, uuid: string, logged: set<string>, vals: Row, now: int)
    requires forall c :: c in logged ==> c in vals
  {
    && (forall i, j :: 0 <= i < j < |added| ==> added[i].attr != added[j].attr)
    && (forall c :: c in logged <==> exists i :: 0 <= i < |added| && added[i].attr == c)
    && (forall i :: 0 <= i < |added| ==>
          var c := added[i].attr;
          c in logged && added[i] == Entry(uuid, c, if c in schema.large then Null else vals[c],
                                           if c in schema.large then vals[c] else Null, now))
  }

  lemma {:induction false} EntriesLog(schema: Schema, uuid: string, cols: seq<string>, vals: Row, now: int)
    requires Distinct(cols) && forall c :: c in cols ==> c in vals
    ensures LogsExactly(schema, Entries(schema, uuid, cols, vals, now), uuid, (set c | c in cols), vals, now)
  {
    EntryAt(schema, uuid, cols, vals, now);
    DistinctPlaces(cols);
    var added := Entries(schema, uuid, cols, vals, now);
    forall c | c in cols ensures exists i :: 0 <= i < |added| && added[i].attr == c {
      var i :| 0 <= i < |cols| && cols[i] == c;
      assert added[i].attr == c;
    }
  }

  lemma {:induction false} EntryAt(schema: Schema, uuid: string, cols: seq<string>, vals: Row, now: int)
    requires forall c :: c in cols ==> c in vals
    ensures forall i :: 0 <= i < |cols| ==> Entries(schema, uuid, cols, vals, now)[i] == EntryFor(schema, uuid, cols[i], vals[cols[i]], now)
  {
    if cols != [] {
      EntryAt(schema, uuid, cols[..|cols| - 1], vals, now);
    }
  }

  lemma {:induction false} ChangedAreDistinct(cols: seq<string>, row: Row, changes: Row)
    requires Distinct(cols) && forall c :: c in cols ==> c in row
    ensures Distinct(ChangedColumns(cols, row, changes))
  {
    if cols != [] {
      var n := |cols| - 1;
      var r := ChangedColumns(cols[..n], row, changes);
      ChangedAreDistinct(cols[..n], row, changes);
      assert (r + [cols[n]])[..|r|] == r;
    }
  }

  function Merged(row: Row, changes: Row): Row {
    map c | c in row :: if c in changes then changes[c] else row[c]
  }

  /** An update is stored exactly when the values it assigns fit their columns. It sets the
      assigned columns and keeps the others, and all other objects. */
  lemma {:induction false} UpdateStores(schema: Schema, db: Db, uuid: string, changes: Row, now: int)
    requires schema.Valid() && RowsAccepted(schema, db.rows) && uuid in db.rows
    ensures var r := Apply(schema, db, Update(uuid, changes, now));
            if forall c :: c in schema.columns && c in changes ==> Fitting(schema, c, changes[c])
            then r.rows == db.rows[uuid := Merged(db.rows[uuid], changes)] else r == db
  {
    var row := db.rows[uuid];
    assert UpdatedRow(row, ChangedColumns(schema.columns, row, changes), changes) == Merged(row, changes);
    MergedAccepted(schema, row, changes);
    assert db.history + [] == db.history;
  }

  lemma MergedAccepted(schema: Schema, row: Row, changes: Row)
    requires schema.Valid() && row.Keys == schema.ColumnSet() && schema.Accepts(row)
    ensures schema.Accepts(Merged(row, changes))
       <==> forall c :: c in schema.columns && c in changes ==> Fitting(schema, c, changes[c])
  {
    forall c | c in schema.columns ensures Merged(row, changes)[c] == if c in changes then changes[c] else row[c] {
      assert c in row;
    }
  }

  lemma Appended(h: seq<Entry>, es: seq<Entry>)
    ensures (h + es)[..|h|] == h && (h + es)[|h|..] == es
  {
  }

  lemma {:induction false} ChangesLog(schema: Schema, uuid: string, row: Row, changes: Row, now: int)
    requires schema.Valid() && row.Keys == schema.ColumnSet()
    ensures LogsExactly(schema, Entries(schema, uuid, ChangedColumns(schema.columns, row, changes), changes, now), uuid,
                        (set c | c in schema.columns && c in changes && changes[c] != row[c]), changes, now)
  {
    var cols := ChangedColumns(schema.columns, row, changes);
    ChangedAreDistinct(schema.columns, row, changes);
    EntriesLog(schema, uuid, cols, changes, now);
    assert (set c | c in cols) == set c | c in schema.columns && c in changes && changes[c] != row[c];
  }

  lemma UpdateEntries(schema: Schema, db: Db, uuid: string, changes: Row, now: int)
    requires schema.Valid() && RowsAccepted(schema, db.rows) && uuid in db.rows
    requires forall c :: c in schema.columns && c in changes ==> Fitting(schema, c, changes[c])
    ensures Apply(schema, db, Update(uuid, changes, now)).history
         == db.history + Entries(schema, uuid, ChangedColumns(schema.columns, db.rows[uuid], changes), changes, now)
  {
    var row := db.rows[uuid];
    assert UpdatedRow(row, ChangedColumns(schema.columns, row, changes), changes) == Merged(row, changes);
    MergedAccepted(schema, row, changes);
  }

  /** A stored update logs exactly the columns that changed, with their new values. */
  lemma {:induction false} UpdateLogs(schema: Schema, db: Db, uuid: string, changes: Row, now: int)
    requires schema.Valid() && RowsAccepted(schema, db.rows) && uuid in db.rows
    requires forall c :: c in schema.columns && c in changes ==> Fitting(schema, c, changes[c])
    ensures var history := Apply(schema, db, Update(uuid, changes, now)).history;
            && |history| >= |db.history| && history[..|db.history|] == db.history
            && LogsExactly(schema, history[|db.history|..], uuid,
                           (set c | c in schema.columns && c in changes && changes[c] != db.rows[uuid][c]), changes, now)
  {
    UpdateEntries(schema, db, uuid, changes, now);
    ChangesLog(schema, uuid, db.rows[uuid], changes, now);
    Appended(db.history, Entries(schema, uuid, ChangedColumns(schema.columns, db.rows[uuid], changes), changes, now));
  }

  /** The row of a new object: the primary key, the time of the call as created_at, and else what
      is assigned or the default. */
  function NewRow(schema: Schema, e: Event): (row: Row)
    requires schema.Valid() && e.Create?
    ensures row.Keys == schema.ColumnSet()
  {
    map c | c in schema.columns ::
      if c == "id" then e.pk else if c == "created_at" then Time(e.now)
      else if c in e.given then e.given[c] else schema.defaults[c]
  }

  lemma InsertedIsNew(schema: Schema, e: Event)
    requires schema.Valid() && e.Create?
    ensures InsertedRow(schema, e.pk, Stamped(e.given, e.now)) == NewRow(schema, e)
    ensures Storable(schema, e) <==> forall c :: c in schema.columns ==> Fitting(schema, c, NewRow(schema, e)[c])
  {
    var row, inserted := NewRow(schema, e), InsertedRow(schema, e.pk, Stamped(e.given, e.now));
    forall c | c in row ensures row[c] == inserted[c] {
    }
  }

  /** An object is created exactly when its uuid is new and every column of its row fits. */
  lemma {:induction false} CreateStores(schema: Schema, db: Db, e: Event)
    requires schema.Valid() && RowsAccepted(schema, db.rows) && e.Create?
    ensures var r := Apply(schema, db, e);
            if e.uuid !in db.rows && forall c :: c in schema.columns ==> Fitting(schema, c, NewRow(schema, e)[c])
            then r.rows == db.rows[e.uuid := NewRow(schema, e)] else r == db
  {
    InsertedIsNew(schema, e);
    assert db.history + [] == db.history;
  }

  /** A stored create logs every column: what is assigned to it if that is neither nil nor false,
      else its default. */
  lemma {:induction false} CreateLogs(schema: Schema, db: Db, e: Event)
    requires schema.Valid() && RowsAccepted(schema, db.rows) && e.Create? && e.uuid !in db.rows
    requires forall c :: c in schema.columns ==> Fitting(schema, c, NewRow(schema, e)[c])
    ensures var history := Apply(schema, db, e).history;
            var logged := map c | c in schema.columns ::
              if c == "created_at" then Time(e.now)
              else if c in e.given && e.given[c] != Null && e.given[c] != False then e.given[c] else schema.defaults[c];
            && |history| >= |db.history| && history[..|db.history|] == db.history
            && LogsExactly(schema, history[|db.history|..], e.uuid, schema.ColumnSet(), logged, e.now)
  {
    var logged := map c | c in schema.columns ::
      if c == "created_at" then Time(e.now)
      else if c in e.given && e.given[c] != Null && e.given[c] != False then e.given[c] else schema.defaults[c];
    InsertedIsNew(schema, e);
    LoggedValues(schema, e, logged);
    EntriesLog(schema, e.uuid, schema.columns, logged, e.now);
    assert (set c | c in schema.columns) == schema.ColumnSet();
    Appended(db.history, Entries(schema, e.uuid, schema.columns, logged, e.now));
  }

  lemma LoggedValues(schema: Schema, e: Event, logged: Row)
    requires schema.Valid() && e.Create?
    requires logged == map c | c in schema.columns ::
               if c == "created_at" then Time(e.now)
               else if c in e.given && e.given[c] != Null && e.given[c] != False then e.given[c] else schema.defaults[c]
    ensures LoggedAtCreation(schema, Stamped(e.given, e.now)) == logged
  {
    var g := Stamped(e.given, e.now);
    forall c | c in logged ensures LoggedAtCreation(schema, g)[c] == logged[c] {
    }
  }

  /** A snapshot is granted exactly for the times from the creation to the termination. */
  lemma {:induction false} SnapshotGranted(schema: Schema, events: seq<Event>, uuid: string, at: int)
    requires schema.Valid() && LeavesStampsAlone(events) && Creation(schema, events, uuid).Some?
    ensures uuid in After(schema, events).rows
    ensures var ended := After(schema, events).rows[uuid]["terminated_at"];
            HistorySnapshot(schema, After(schema, events), uuid, at).Ok?
            <==> Creation(schema, events, uuid).value.now <= at && (ended.Time? ==> at <= ended.t)
  {
    CreationTimeIsKept(schema, events, uuid);
  }

  // ----- which columns are safe -----

  /** In every run and for every object the snapshots of the whole life span are right in the column. */
  ghost predicate AlwaysExact(schema: Schema, c: string)
    requires schema.Valid() && c in schema.columns
  {
    forall events, uuid, at ::
      (&& InOrder(events) && LeavesStampsAlone(events) && uuid in After(schema, events).rows
       && InLifeSpan(After(schema, events).rows[uuid], at))
      ==> SnapshotAgrees(schema, events, uuid, c, at)
  }

  /** The history of a column is exact in every run if and only if the column is required or
      defaults to nil, and defaults to false if it is boolean. */
  lemma {:induction false} ExactColumns(schema: Schema, c: string)
    requires schema.Valid() && c in schema.columns && c != "id"
    ensures AlwaysExact(schema, c) <==> schema.Faithful(c)
  {
    if schema.Faithful(c) {
      forall events, uuid, at |
        && InOrder(events) && LeavesStampsAlone(events) && uuid in After(schema, events).rows
        && InLifeSpan(After(schema, events).rows[uuid], at)
        ensures SnapshotAgrees(schema, events, uuid, c, at)
      {
        RowsAreCreated(schema, events, uuid);
        FaithfulLogsTruly(schema, Creation(schema, events, uuid).value, c);
        SnapshotRestoresPast(schema, events, uuid, c, at);
      }
    } else {
      ValueIsLostAtCreation(schema, c, 0);
    }
  }

  const INSTANCE_DEFAULTS := map["state" := Data("init"), "status" := Data("init"), "ha_enabled" := Data("0"),
                                 "quota_weight" := Data("0.0")]

  /** The instances table: four required columns have a default, and no column is boolean. */
  ghost predicate IsInstances(schema: Schema)
    requires schema.Valid()
  {
    && schema.booleans == {} && INSTANCE_DEFAULTS.Keys <= schema.required
    && forall c :: c in schema.columns ==>
         schema.defaults[c] == if c in INSTANCE_DEFAULTS then INSTANCE_DEFAULTS[c] else Null
  }

  /** The snapshots of instances are right in every column, whatever is assigned at creation. */
  lemma {:induction false} InstanceHistoryIsExact(schema: Schema, c: string)
    requires schema.Valid() && IsInstances(schema) && c in schema.columns && c != "id"
    ensures AlwaysExact(schema, c)
  {
    ExactColumns(schema, c);
  }

  lemma FaithfulLogsTruly(schema: Schema, create: Event, c: string)
    requires schema.Valid() && create.Create? && Storable(schema, create) && LeavesStamps(create)
    requires c in schema.columns && c != "id" && schema.Faithful(c)
    ensures LogsTruly(schema, create, c)
  {
    var g := Stamped(create.given, create.now);
    assert c in g && c != "created_at" ==> InsertedRow(schema, create.pk, g)[c] == create.given[c];
  }

  /** A create that assigns false or nil to the column, and something to every other one. */
  function Losing(schema: Schema, c: string, now: int): Event
    requires schema.Valid() && c in schema.columns
  {
    var given := map d | d in schema.columns && d !in {"id", "created_at"} ::
      if d != c then (if d == "terminated_at" then Time(now) else Data("x"))
      else if c in schema.booleans && schema.defaults[c] != False then False else Null;
    Create("i-1", Data("1"), given, now)
  }

  /** In any other column the database stores such a create, and the snapshot at its time says
      the default instead. */
  lemma {:induction false} ValueIsLostAtCreation(schema: Schema, c: string, now: int)
    requires schema.Valid() && c in schema.columns && c != "id" && !schema.Faithful(c)
    ensures var run := [Losing(schema, c, now)];
            var rows := After(schema, run).rows;
            && InOrder(run) && LeavesStampsAlone(run)
            && "i-1" in rows && !rows["i-1"][c].Truthy() && rows["i-1"][c] != schema.defaults[c]
            && InLifeSpan(rows["i-1"], now)
            && PastRow(rows["i-1"], After(schema, run).history, "i-1", now)[c] == schema.defaults[c]
            && !SnapshotAgrees(schema, run, "i-1", c, now)
  {
    var create := Losing(schema, c, now);
    var db := After(schema, []);
    assert [create][..0] == [];
    var g := Stamped(create.given, now);
    assert Storable(schema, create) by {
      var row := InsertedRow(schema, create.pk, g);
      forall d | d in schema.columns
        ensures (row[d] == Null ==> d !in schema.required) && (row[d] == False ==> d in schema.booleans)
      {
        assert d != "id" ==> d in g;
      }
    }
    assert After(schema, [create]) == Apply(schema, db, create);
    EventAppendsToLog(schema, db, create, "i-1", c, now);
    assert UpTo([create], now) == [create];
  }
}
