/** Feeding executed commands to the append-only file (feedAppendOnlyFile): a SELECT goes before a command
    whose database is not the one selected last. */
module AofFeed {
  import opened Text
  import opened AofFormat
  import opened AofLoad
  import opened AofLoadProofs
  import opened AofCut
  import opened AofResume
  import opened AofStream

  /** One call of feedAppendOnlyFile: the timestamp annotation that is due, if any, the database of the
      command, or none for MULTI and EXEC, and the command. */
  datatype Call = Call(note: Option<string>, db: Option<nat>, argv: Argv)

  /** The records of one call, when `selected` is the database selected last. */
  function CallRecords(selected: Option<nat>, c: Call): seq<Record> {
    (if c.note.Some? then [Note(c.note.value)] else [])
    + (if c.db.Some? && c.db != selected then [Cmd(SelectArgv(c.db.value))] else [])
    + [Cmd(c.argv)]
  }

  /** The database selected after some calls. */
  function SelectedAfter(selected: Option<nat>, calls: seq<Call>): Option<nat> {
    if calls == [] then selected
    else if calls[|calls| - 1].db.Some? then calls[|calls| - 1].db
    else SelectedAfter(selected, calls[..|calls| - 1])
  }

  /** The records of the calls of one execution unit. */
  function FeedRecords(selected: Option<nat>, calls: seq<Call>): seq<Record> {
    if calls == [] then []
    else
      var front := calls[..|calls| - 1];
      FeedRecords(selected, front) + CallRecords(SelectedAfter(selected, front), calls[|calls| - 1])
  }

  /** What the execution unit did. */
  function Effects(calls: seq<Call>): seq<Effect> {
    if calls == [] then []
    else
      var c := calls[|calls| - 1];
      Effects(calls[..|calls| - 1]) + if c.db.Some? then [Effect(c.db.value, c.argv)] else []
  }

  /** feedAppendOnlyFile. */
  method FeedAppendOnlyFile(aofBuf: string, aofSelectedDb: Option<nat>, c: Call) returns (r: string, selected: Option<nat>)
    ensures r == aofBuf + Print(CallRecords(aofSelectedDb, c))
    ensures selected == if c.db.Some? then c.db else aofSelectedDb
  {
    hide PrintRecord, Print, SelectArgv;
    selected := aofSelectedDb;
    var buf := "";
    if c.note.Some? { buf := PrintRecord(Note(c.note.value)); }
    if c.db.Some? && c.db != selected {
      buf := buf + PrintRecord(Cmd(SelectArgv(c.db.value)));
      selected := c.db;
    }
    buf := buf + PrintRecord(Cmd(c.argv));
    r := aofBuf + buf;
    CallText(aofSelectedDb, c);
  }

  lemma PrintOf(a: seq<Record>, r: Record)
    ensures Print(a + [r]) == Print(a) + PrintRecord(r)
  {
    hide PrintRecord;
    PrintConcat(a, [r]);
    assert [r][1..] == [];
    assert Print([r]) == PrintRecord(r) + "";
  }

  /** The text of one call, piece by piece. */
  lemma CallText(selected: Option<nat>, c: Call)
    ensures Print(CallRecords(selected, c)) ==
      (if c.note.Some? then PrintRecord(Note(c.note.value)) else "")
      + (if c.db.Some? && c.db != selected then PrintRecord(Cmd(SelectArgv(c.db.value))) else "")
      + PrintRecord(Cmd(c.argv))
    ensures c.note.None? && c.db.Some? && c.db != selected ==>
      "" + PrintRecord(Cmd(SelectArgv(c.db.value))) == PrintRecord(Cmd(SelectArgv(c.db.value)))
  {
    hide PrintRecord, Print, SelectArgv;
    var a := if c.note.Some? then [Note(c.note.value)] else [];
    var b := if c.db.Some? && c.db != selected then [Cmd(SelectArgv(c.db.value))] else [];
    PrintOf(a + b, Cmd(c.argv));
    if b != [] { PrintOf(a, b[0]); } else { assert a + b == a; }
    EmptyPrint();
    if a != [] { PrintOf([], a[0]); assert [] + a == a; }
  }

  /** propagatePendingCommands: the calls of a unit, one after the other. */
  method FeedUnit(aofBuf: string, aofSelectedDb: Option<nat>, calls: seq<Call>) returns (r: string, selected: Option<nat>)
    ensures r == aofBuf + Print(FeedRecords(aofSelectedDb, calls)) && selected == SelectedAfter(aofSelectedDb, calls)
  {
    hide Print, CallRecords;
    r, selected := aofBuf, aofSelectedDb;
    assert aofBuf + "" == aofBuf && Print([]) == "" by { EmptyPrint(); }
    var j := 0;
    while j < |calls|
      invariant 0 <= j <= |calls|
      invariant r == aofBuf + Print(FeedRecords(aofSelectedDb, calls[..j])) && selected == SelectedAfter(aofSelectedDb, calls[..j])
    {
      FeedNext(aofBuf, aofSelectedDb, calls, j);
      r, selected := FeedAppendOnlyFile(r, selected, calls[j]);
      j := j + 1;
    }
    assert calls[..j] == calls;
  }

  lemma FeedNext(buf: string, selected: Option<nat>, calls: seq<Call>, j: nat)
    requires j < |calls|
    ensures var s, c := SelectedAfter(selected, calls[..j]), calls[j];
      && SelectedAfter(selected, calls[..j + 1]) == (if c.db.Some? then c.db else s)
      && buf + Print(FeedRecords(selected, calls[..j + 1])) == buf + Print(FeedRecords(selected, calls[..j])) + Print(CallRecords(s, c))
  {
    hide Print, CallRecords;
    assert calls[..j + 1][..j] == calls[..j] && calls[..j + 1][j] == calls[j];
    PrintConcat(FeedRecords(selected, calls[..j]), CallRecords(SelectedAfter(selected, calls[..j]), calls[j]));
  }

  // ---------------------------------------------------------------- good units

  /** What the server feeds: MULTI and EXEC without a database, write commands with one. */
  ghost predicate GoodCall(kind: Argv -> Kind, c: Call) {
    && (c.note.Some? ==> ValidRecord(Note(c.note.value)))
    && ValidRecord(Cmd(c.argv))
    && match c.db
       case None => kind(c.argv).Multi? || kind(c.argv).Exec?
       case Some(db) => db < 0x8000_0000 && kind(c.argv).Other? && Selects(c.argv).None? && kind(SelectArgv(db)).Other?
  }

  function Argvs(calls: seq<Call>): seq<Argv> {
    if calls == [] then [] else Argvs(calls[..|calls| - 1]) + [calls[|calls| - 1].argv]
  }

  /** An execution unit: good calls, with every MULTI closed. */
  ghost predicate GoodUnit(kind: Argv -> Kind, calls: seq<Call>) {
    (forall i :: 0 <= i < |calls| ==> GoodCall(kind, calls[i])) && OpenMulti(kind, Argvs(calls)).None?
  }

  lemma SelectIsValid(db: nat)
    requires db < 0x8000_0000
    ensures ValidRecord(Cmd(SelectArgv(db)))
  {
    assert Pow10(10) == 10_000_000_000 by { assert Pow10(5) == 100_000; }
    DecLength(db, 10);
  }

  lemma CallIsValid(kind: Argv -> Kind, selected: Option<nat>, c: Call)
    requires GoodCall(kind, c)
    ensures ValidRecords(CallRecords(selected, c)) && Known(kind, CallRecords(selected, c))
  {
    hide ValidRecord, SelectArgv, Selects;
    if c.db.Some? { SelectIsValid(c.db.value); }
  }

  lemma {:induction false} UnitIsValid(kind: Argv -> Kind, selected: Option<nat>, calls: seq<Call>)
    requires forall i :: 0 <= i < |calls| ==> GoodCall(kind, calls[i])
    ensures ValidRecords(FeedRecords(selected, calls)) && Known(kind, FeedRecords(selected, calls))
  {
    hide GoodCall, CallRecords, ValidRecords, Known;
    if calls == [] {
      EmptyStream(kind);
      GoodParts(kind, []);
    } else {
      var front := calls[..|calls| - 1];
      UnitIsValid(kind, selected, front);
      CallIsValid(kind, SelectedAfter(selected, front), calls[|calls| - 1]);
      ConcatValid(kind, FeedRecords(selected, front), CallRecords(SelectedAfter(selected, front), calls[|calls| - 1]));
    }
  }

  lemma GoodParts(kind: Argv -> Kind, rs: seq<Record>)
    requires Good(kind, rs)
    ensures ValidRecords(rs) && Known(kind, rs) && OpenMulti(kind, Commands(rs)).None?
  {
  }

  /** The commands of one more call. */
  lemma CallCommands(rs: seq<Record>, selected: Option<nat>, c: Call)
    ensures Commands(rs + CallRecords(selected, c)) == Commands(rs) +
      (if c.db.Some? && c.db != selected then [SelectArgv(c.db.value)] else []) + [c.argv]
  {
    hide SelectArgv, Commands;
    var a := if c.note.Some? then [Note(c.note.value)] else [];
    var b := if c.db.Some? && c.db != selected then [Cmd(SelectArgv(c.db.value))] else [];
    assert rs + CallRecords(selected, c) == rs + a + b + [Cmd(c.argv)];
    CommandsSnoc(rs + a + b, Cmd(c.argv));
    if b != [] { CommandsSnoc(rs + a, b[0]); } else { assert rs + a + b == rs + a; }
    if a != [] { CommandsSnoc(rs, a[0]); } else { assert rs + a == rs; }
    assert Commands(rs) + [] == Commands(rs);
  }

  /** Data commands leave MULTI as it is. */
  lemma OpenAfterData(kind: Argv -> Kind, cs: seq<Argv>, c: Argv)
    requires kind(c).Other?
    ensures OpenMulti(kind, cs + [c]) == OpenMulti(kind, cs)
  {
    hide OpenMulti;
    OpenSnoc(kind, cs, c);
  }

  /** The SELECTs that feeding adds do not change whether a MULTI is open. */
  lemma {:induction false} UnitOpens(kind: Argv -> Kind, selected: Option<nat>, calls: seq<Call>)
    requires forall i :: 0 <= i < |calls| ==> GoodCall(kind, calls[i])
    ensures OpenMulti(kind, Commands(FeedRecords(selected, calls))).Some? <==> OpenMulti(kind, Argvs(calls)).Some?
  {
    if calls != [] {
      hide OpenMulti, Commands, CallRecords, ValidRecord, SelectArgv, Selects;
      var front, c := calls[..|calls| - 1], calls[|calls| - 1];
      var s, cs := SelectedAfter(selected, front), Commands(FeedRecords(selected, front));
      UnitOpens(kind, selected, front);
      CallCommands(FeedRecords(selected, front), s, c);
      OpenSnoc(kind, Argvs(front), c.argv);
      if c.db.Some? && c.db != s {
        OpenAfterData(kind, cs, SelectArgv(c.db.value));
        OpenSnoc(kind, cs + [SelectArgv(c.db.value)], c.argv);
      } else {
        assert cs + [] == cs;
        OpenSnoc(kind, cs, c.argv);
      }
    }
  }

  /** Where the selected database and the replaying client stand. */
  ghost predicate InStep(selected: Option<nat>, db: nat) {
    selected.Some? ==> selected.value == db
  }

  lemma PlaceSnoc(cs: seq<Argv>, c: Argv, db: nat)
    ensures Place(cs + [c], db) == Place(cs, db) + if Selects(c).Some? then [] else [Effect(DbAfter(cs, db), c)]
    ensures DbAfter(cs + [c], db) == if Selects(c).Some? then Selects(c).value else DbAfter(cs, db)
  {
    hide Selects;
    assert (cs + [c])[..|cs|] == cs;
  }

  /** The data commands of a unit do what the unit did, wherever the replaying client stands. */
  lemma {:induction false} UnitPlaced(kind: Argv -> Kind, selected: Option<nat>, calls: seq<Call>, db: nat)
    requires (forall i :: 0 <= i < |calls| ==> GoodCall(kind, calls[i])) && InStep(selected, db)
    ensures var d := DataCommands(kind, Commands(FeedRecords(selected, calls)));
      Place(d, db) == Effects(calls) && InStep(SelectedAfter(selected, calls), DbAfter(d, db))
  {
    if calls == [] {
      assert Commands([]) == [] && DataCommands(kind, []) == [];
    } else {
      hide DataCommands, Commands, CallRecords, ValidRecord, Selects, Place, DbAfter, SelectArgv;
      var front, c := calls[..|calls| - 1], calls[|calls| - 1];
      var s, cs := SelectedAfter(selected, front), Commands(FeedRecords(selected, front));
      UnitPlaced(kind, selected, front, db);
      CallCommands(FeedRecords(selected, front), s, c);
      CallPlaced(kind, cs, s, c, db);
    }
  }

  lemma CallPlaced(kind: Argv -> Kind, cs: seq<Argv>, s: Option<nat>, c: Call, db: nat)
    requires GoodCall(kind, c) && InStep(s, DbAfter(DataCommands(kind, cs), db))
    ensures var all := cs + (if c.db.Some? && c.db != s then [SelectArgv(c.db.value)] else []) + [c.argv];
      var d, d' := DataCommands(kind, cs), DataCommands(kind, all);
      && Place(d', db) == Place(d, db) + (if c.db.Some? then [Effect(c.db.value, c.argv)] else [])
      && InStep(if c.db.Some? then c.db else s, DbAfter(d', db))
  {
    hide DataCommands, ValidRecord, Selects, Place, DbAfter, SelectArgv;
    var d := DataCommands(kind, cs);
    if c.db.None? {
      assert cs + [] + [c.argv] == cs + [c.argv];
      DataSnoc(kind, cs, c.argv);
      assert d + [] == d && Place(d, db) + [] == Place(d, db);
    } else if c.db == s {
      assert cs + [] + [c.argv] == cs + [c.argv];
      DataSnoc(kind, cs, c.argv);
      PlaceSnoc(d, c.argv, db);
    } else {
      var sel := SelectArgv(c.db.value);
      SelectsBack(c.db.value);
      DataSnoc(kind, cs, sel);
      DataSnoc(kind, cs + [sel], c.argv);
      PlaceSnoc(d, sel, db);
      PlaceSnoc(d + [sel], c.argv, db);
      assert Place(d, db) + [] == Place(d, db);
    }
  }

  /** Feeding a unit: a good stream that does what the unit did, and the selected database stays in step. */
  lemma UnitIsFed(kind: Argv -> Kind, selected: Option<nat>, calls: seq<Call>, db: nat)
    requires GoodUnit(kind, calls) && InStep(selected, db)
    ensures var rs := FeedRecords(selected, calls);
      && Good(kind, rs) && Place(Effective(kind, Commands(rs)), db) == Effects(calls)
      && InStep(SelectedAfter(selected, calls), DbAfter(Effective(kind, Commands(rs)), db))
  {
    hide OpenMulti, Commands, DataCommands, GoodCall, FeedRecords, Place, DbAfter, ValidRecords, Known;
    UnitIsValid(kind, selected, calls);
    UnitOpens(kind, selected, calls);
    UnitPlaced(kind, selected, calls, db);
  }
}
