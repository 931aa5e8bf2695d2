/** Runs in which the append-only files lose or change data: each fails at a condition of module AofLimits. */
module AofRuns {
  import opened Text
  import opened Seqs
  import opened AofFormat
  import AofLoad
  import AofLoadProofs
  import AofCut
  import AofResume
  import AofFlush
  import opened AofStream
  import opened AofFeed
  import opened AofRewrite
  import opened AofRewriteProofs
  import opened AofLimits

  // ---------------------------------------------------------------- failures that do damage

  /** k bytes are taken, then write(2) fails. */
  function Short(k: nat, truncated: bool): FlushOutcome {
    FlushOutcome([AofFlush.Took(k), AofFlush.Failed], truncated)
  }

  lemma ShortTotal(k: nat, len: nat, truncated: bool)
    requires 0 < k < len
    ensures AofFlush.Total(Short(k, truncated).answers, len) == k
    ensures AofFlush.Marks(Short(k, truncated).answers, 0, len) == [k]
  {
    var a := Short(k, truncated).answers;
    assert a[1..] == [AofFlush.Failed];
    assert AofFlush.Total(a[1..], len - k) == 0;
    assert AofFlush.Marks(a[1..], k, len) == [];
  }

  /** A short write to a file without O_APPEND is taken back, and the next write that succeeds makes
      all files unloadable. */
  lemma RepairedWriteIsFatal(kind: Kinds, s: State, k: nat)
    requires Inv(kind, s) && Same(s) && !s.append && s.pos == |Content(s)| && 0 < k < |s.buf|
    requires !AofCut.Partial(s.fed, |Content(s)|)
    ensures var s1 := Flush(s, Short(k, true));
      Inv(kind, s1) && Exact(kind, s1) && Recovered(kind, Flush(s1, WriteAll)).None?
  {
    hide *;
    InvParts(kind, s);
    ShortIsSound(kind, s, k, true);
    FlushKeeps(kind, s, Short(k, true));
    var s1 := Flush(s, Short(k, true));
    InvIsSafe(kind, s1);
    SafeIsExact(kind, s1);
    RepairedIs(s, k);
    HoleIsFatal(kind, s1, |s1.buf|);
    WroteAllIs(s1);
    RecoveredSame(kind, Flush(s1, WriteAll), Wrote(s1, |s1.buf|));
  }

  lemma ShortIsSound(kind: Kinds, s: State, k: nat, truncated: bool)
    requires s.manifest.listing.incr != [] && s.fd == Last(s.manifest.listing) && Same(s)
    requires s.append || s.pos == |Content(s)|
    ensures SoundFlush(kind, s, Short(k, truncated))
  {
    hide Settles, Print, AofFlush.Marks, AofFlush.Total;
  }

  lemma RepairedIs(s: State, k: nat)
    requires Buffered(s) && !s.append && s.pos == |Content(s)| && 0 < k < |s.buf|
    ensures var s1 := Flush(s, Short(k, true));
      && Content(s1) == Content(s) && s1.buf == s.buf && s1.fed == s.fed && !AofFlush.AtEnd(OpenLog(s1).file)
  {
    hide Print;
    ShortTotal(k, |s.buf|, true);
    hide AofFlush.Total;
    AofFlush.Continues(OpenLog(s).file, s.buf, k, Print(s.fed));
    PrefixOfPrefix(Print(s.fed), |Content(s)| + k, |Content(s)|);
    RestOf(Content(s), s.buf, Print(s.fed));
    assert Print(s.fed)[..|Content(s)|] == Content(s);
  }

  lemma WroteAllIs(s: State)
    ensures Flush(s, WriteAll).files == Wrote(s, |s.buf|).files && Flush(s, WriteAll).listing == Wrote(s, |s.buf|).listing
  {
    hide AofFlush.WriteTo, Print;
    assert AofFlush.Total([], |s.buf|) == |s.buf|;
  }

  /** A command cut in two, or a transaction, by a short write that could not be taken back: when the
      rest of it goes to the INCR file of the next rewrite, nothing can be loaded. */
  lemma SplitCommandIsFatal(kind: Kinds, s: State, k: nat, o: StartOutcome)
    requires Inv(kind, s) && Same(s) && s.child.None? && (s.append || s.pos == |Content(s)|) && 0 < k < |s.buf|
    requires !Settles(kind, s.fed, |Content(s)| + k)
    requires o.flush == NoWrite && o.created && o.persist.Written?
    ensures var s1 := Flush(s, Short(k, false));
      Inv(kind, s1) && Exact(kind, s1) && Recovered(kind, StartRewrite(s1, o)).None?
  {
    hide *;
    InvParts(kind, s);
    ShortIsSound(kind, s, k, false);
    FlushKeeps(kind, s, Short(k, false));
    var s1 := Flush(s, Short(k, false));
    InvIsSafe(kind, s1);
    SafeIsExact(kind, s1);
    ShortIs(s, k);
    FlushIsLocal(s, Short(k, false));
    NothingFlushed(kind, s1, o);
    ListedNewLoadsIff(kind, Flush(Deselect(s1), o.flush));
    StartIs(s1, o);
    RecoveredSame(kind, StartRewrite(s1, o), ListedNew(Flush(Deselect(s1), o.flush)));
  }

  lemma ShortIs(s: State, k: nat)
    requires Buffered(s) && (s.append || s.pos == |Content(s)|) && 0 < k < |s.buf|
    ensures |Content(Flush(s, Short(k, false)))| == |Content(s)| + k
  {
    hide Print;
    ShortTotal(k, |s.buf|, false);
    hide AofFlush.Total;
    AofFlush.Continues(OpenLog(s).file, s.buf, k, Print(s.fed));
  }

  /** The forced flush of a rewrite start, when write(2) fails at once. */
  const NoWrite := FlushOutcome([AofFlush.Failed], true)

  lemma NothingFlushed(kind: Kinds, s: State, o: StartOutcome)
    requires Inv(kind, s) && o.flush == NoWrite
    ensures var s1 := Flush(Deselect(s), o.flush);
      && SoundFlush(kind, Deselect(s), o.flush) && Inv(kind, s1) && Content(s1) == Content(s) && s1.fed == s.fed
      && s1.buf == s.buf && s1.fd == s.fd && s1.manifest == s.manifest
  {
    hide Inv, Print;
    assert s.buf[..0] == "";
    assert AofFlush.Total([AofFlush.Failed], |s.buf|) == 0 && AofFlush.Marks([AofFlush.Failed], 0, |s.buf|) == [];
    assert SoundFlush(kind, Deselect(s), o.flush);
    StartFlushed(kind, s, o);
  }

  lemma CutCommand(kind: Kinds, rs: seq<Record>, k: nat)
    requires k <= |Print(rs)| && AofCut.Partial(rs, k) && forall i :: 0 <= i < |rs| ==> rs[i].Cmd?
    ensures !Settles(kind, rs, k)
  {
    hide Print, AofLoad.OpenMulti, AofLoad.Commands, AofLoadProofs.Whole;
    AofCut.CutShape(rs, k);
  }

  /** Two commands: every byte is inside one of them but the first, the last and the one between them. */
  lemma CutPair(kind: Kinds, a: Argv, b: Argv, k: nat)
    requires 0 < k < |Print([Cmd(a), Cmd(b)])| && k != |Print([Cmd(a)])|
    ensures !Settles(kind, [Cmd(a), Cmd(b)], k)
  {
    hide Print, Settles;
    hide AofCut.Partial, AofLoadProofs.Whole;
    var rs := [Cmd(a), Cmd(b)];
    AofCut.EmptyPrint();
    assert rs[..0] == [] && rs[..1] == [Cmd(a)] && rs[..2] == rs;
    if !AofCut.Partial(rs, k) {
      BoundaryText(rs, k);
      assert false;
    }
    CutCommand(kind, rs, k);
  }

  /** Commands still in the buffer when the child is forked are in the new BASE file and will be in
      the INCR file too. */
  lemma BufferedWriteIsDuplicated(kind: Kinds, s: State, o: StartOutcome, d: DoneOutcome)
    requires Inv(kind, s) && s.child.None? && Content(s) == "" && All(kind, s.fed) != []
    requires o.flush == NoWrite && o.created && o.persist.Written? && o.forked
    requires d.success && d.renamed && d.persist.Written?
    ensures var s1 := StartRewrite(s, o); Inv(kind, s1) && Exact(kind, s1) && !Exact(kind, Done(s1, d))
  {
    hide *;
    LateStart(kind, s, o);
    StartKeeps(kind, s, o);
    var s1 := StartRewrite(s, o);
    InvIsSafe(kind, s1);
    SafeIsExact(kind, s1);
    DoneIsSafeIff(kind, s1, d);
    LateIsUnsound(kind, s1, d);
  }

  lemma LateStart(kind: Kinds, s: State, o: StartOutcome)
    requires Inv(kind, s) && s.child.None? && Content(s) == ""
    requires o.flush == NoWrite && o.created && o.persist.Written? && o.forked
    ensures SoundStart(kind, s, o)
    ensures var s1 := StartRewrite(s, o); s1.child.Some? && s1.child.value.late == s.fed
  {
    hide *;
    NothingFlushed(kind, s, o);
    NewIsNotOpen(kind, s);
    StartIs(s, o);
    AofResume.NothingWhole(s.fed);
    assert s.fed[0..] == s.fed;
    var s1 := Flush(Deselect(s), o.flush);
    NothingKept(kind, s.fed);
    AllMovable(kind, s.fed);
    SoundOpenIff(kind, s1);
    SoundStartIs(kind, s, o);
  }

  /** Nothing is in the old file: everything moves, and starts in database 0 anyway. */
  lemma AllMovable(kind: Kinds, rs: seq<Record>)
    ensures Movable(kind, rs, 0)
  {
    AofResume.NothingWhole(rs);
    hide AofLoadProofs.Whole, Anchored;
    assert rs[..0] == [];
  }

  lemma SoundStartIs(kind: Kinds, s: State, o: StartOutcome)
    requires SoundFlush(kind, Deselect(s), o.flush) && o.created && o.persist.Written?
    requires SoundOpen(kind, Flush(Deselect(s), o.flush), true, Written)
    ensures SoundStart(kind, s, o)
  {
    hide SoundFlush, SoundOpen, Flush;
  }

  lemma LateIsUnsound(kind: Kinds, s: State, d: DoneOutcome)
    requires s.child.Some? && All(kind, s.child.value.late) != [] && d.success && d.renamed && d.persist.Written?
    ensures !SoundDone(kind, s, d)
  {
    hide All;
  }

  /** A manifest replaced but reported as failed: the BASE file it names is removed. */
  lemma UnsyncedManifestLosesBase(kind: Kinds, s: State, d: DoneOutcome)
    requires Inv(kind, s) && s.child.Some?
    requires d.success && d.renamed && d.persist.FailedAfter?
    ensures Recovered(kind, Done(s, d)).Some? <==> !d.removed
  {
    hide *;
    DoneLoads(kind, s, d);
  }

  // ---------------------------------------------------------------- from the first start

  /** One command is executed by a new server. */
  function FirstCommand(rdb: bool, db: nat, x: Argv): State {
    Exec(Initial(rdb), [Write(db, x)])
  }

  lemma FirstCommandIs(kind: Kinds, rdb: bool, db: nat, x: Argv)
    requires GoodCall(kind, Write(db, x))
    ensures var s := FirstCommand(rdb, db, x);
      && Inv(kind, s) && Same(s) && s.child.None? && s.append && Content(s) == ""
      && s.fed == [Cmd(SelectArgv(db)), Cmd(x)] && s.buf == Print(s.fed) && All(kind, s.fed) == [Effect(db, x)] && s.selected == Some(db)
  {
    hide *;
    InitialInv(kind, rdb);
    OneWrite(kind, None, db, x);
    ExecKeeps(kind, Initial(rdb), [Write(db, x)]);
    WriteDoes(kind, None, 0, db, x);
    PairIs(SelectArgv(db), x);
    FirstFields(rdb, db, x);
    AllIs(kind, FirstCommand(rdb, db, x).fed);
  }

  lemma AllIs(kind: Kinds, rs: seq<Record>)
    ensures All(kind, rs) == Place(AofLoad.Effective(kind, AofLoad.Commands(rs)), 0)
  {
  }

  lemma FirstFields(rdb: bool, db: nat, x: Argv)
    ensures var s, rs := FirstCommand(rdb, db, x), FeedRecords(None, [Write(db, x)]);
      && s == Exec(Initial(rdb), [Write(db, x)]) && Same(s) && s.child.None? && s.append && Content(s) == ""
      && s.fed == rs && s.buf == Print(rs) && s.selected == SelectedAfter(None, [Write(db, x)])
  {
    hide FeedRecords, Effects, SelectedAfter, Print;
    var rs := FeedRecords(None, [Write(db, x)]);
    assert [] + rs == rs && "" + Print(rs) == Print(rs);
  }

  /** The first command is cut in two, or the SELECT before it. */
  lemma SplitRun(kind: Kinds, rdb: bool, db: nat, x: Argv, k: nat)
    requires GoodCall(kind, Write(db, x))
    requires 0 < k < |Print([Cmd(SelectArgv(db)), Cmd(x)])| && k != |Print([Cmd(SelectArgv(db))])|
    ensures var o := StartOutcome(NoWrite, true, Written, false, rdb);
      Recovered(kind, StartRewrite(Flush(FirstCommand(rdb, db, x), Short(k, false)), o)).None?
  {
    hide *;
    FirstCommandIs(kind, rdb, db, x);
    CutPair(kind, SelectArgv(db), x, k);
    SplitCommandIsFatal(kind, FirstCommand(rdb, db, x), k, StartOutcome(NoWrite, true, Written, false, rdb));
  }

  lemma DuplicateRun(kind: Kinds, rdb: bool, db: nat, x: Argv)
    requires GoodCall(kind, Write(db, x))
    ensures var o := StartOutcome(NoWrite, true, Written, true, rdb);
      !Exact(kind, Done(StartRewrite(FirstCommand(rdb, db, x), o), DoneOutcome(true, true, Written, true, true, {}, Written)))
  {
    hide *;
    FirstCommandIs(kind, rdb, db, x);
    BufferedWriteIsDuplicated(kind, FirstCommand(rdb, db, x),
      StartOutcome(NoWrite, true, Written, true, rdb), DoneOutcome(true, true, Written, true, true, {}, Written));
  }

  /** A rewrite is started by a new server, and a command is executed. */
  function CommandAfterStart(rdb: bool, db: nat, x: Argv): State {
    Exec(StartRewrite(Initial(rdb), StartOutcome(WriteAll, true, Written, false, rdb)), [Write(db, x)])
  }

  lemma FirstStart(kind: Kinds, rdb: bool)
    ensures var o, s := StartOutcome(WriteAll, true, Written, false, rdb), Initial(rdb);
      && SoundStart(kind, s, o)
      && var s1 := StartRewrite(s, o);
         Same(s1) && !s1.append && s1.pos == 0 && s1.buf == "" && s1.selected.None? && s1.fed == [] && Content(s1) == ""
  {
    var s := Initial(rdb);
    NothingKept(kind, []);
    AllMovable(kind, []);
    EmptyStream(kind);
    AofResume.NothingWhole([]);
    hide Print, Settles, Movable, AofCut.Partial, AofLoadProofs.Whole;
    assert Flush(Deselect(s), WriteAll) == s by { assert s.files[Incr(1) := Log("")] == s.files; }
  }

  lemma HoleRun(kind: Kinds, rdb: bool, db: nat, x: Argv, k: nat)
    requires GoodCall(kind, Write(db, x)) && 0 < k < |Print([Cmd(SelectArgv(db)), Cmd(x)])|
    ensures Recovered(kind, Flush(Flush(CommandAfterStart(rdb, db, x), Short(k, true)), WriteAll)).None?
  {
    hide *;
    InitialInv(kind, rdb);
    FirstStart(kind, rdb);
    var s0 := StartRewrite(Initial(rdb), StartOutcome(WriteAll, true, Written, false, rdb));
    StartKeeps(kind, Initial(rdb), StartOutcome(WriteAll, true, Written, false, rdb));
    OneWrite(kind, None, db, x);
    ExecKeeps(kind, s0, [Write(db, x)]);
    PairIs(SelectArgv(db), x);
    CommandAfterIs(rdb, db, x, s0);
    var s := CommandAfterStart(rdb, db, x);
    NothingKept(kind, s.fed);
    ClosedIsWhole(kind, s.fed);
    RepairedWriteIsFatal(kind, s, k);
  }

  lemma ClosedIsWhole(kind: Kinds, rs: seq<Record>)
    requires Closes(kind, rs, 0)
    ensures !AofCut.Partial(rs, 0)
  {
  }

  lemma CommandAfterIs(rdb: bool, db: nat, x: Argv, s0: State)
    requires s0 == StartRewrite(Initial(rdb), StartOutcome(WriteAll, true, Written, false, rdb))
    requires Same(s0) && !s0.append && s0.pos == 0 && s0.buf == "" && s0.fed == [] && s0.selected.None? && Content(s0) == ""
    ensures var s := CommandAfterStart(rdb, db, x);
      && s == Exec(s0, [Write(db, x)]) && Same(s) && !s.append && s.pos == 0 && s.buf == Print(FeedRecords(None, [Write(db, x)]))
      && s.fed == FeedRecords(None, [Write(db, x)]) && Content(s) == ""
  {
    hide Print, StartRewrite, FeedRecords, Effects;
    var rs := FeedRecords(None, [Write(db, x)]);
    assert [] + rs == rs && "" + Print(rs) == Print(rs);
  }

  /** Two commands for the same database; the second is still in the buffer when a rewrite starts. */
  function TwoCommands(rdb: bool, db: nat, x: Argv, y: Argv): State {
    Exec(WriteOne(Initial(rdb), db, x), [Write(db, y)])
  }

  lemma FirstThen(rdb: bool, db: nat, x: Argv)
    ensures WriteOne(Initial(rdb), db, x) == Flush(FirstCommand(rdb, db, x), WriteAll)
    ensures var s := Initial(rdb);
      && s.append && s.buf == "" && s.size == |Content(s)| && s.selected.None? && s.executed == [] && Content(s) == ""
      && s.listing.incr != [] && Last(s.listing) == s.fd && FirstCommand(rdb, db, x).fd == s.fd
      && FirstCommand(rdb, db, x) == Exec(s, [Write(db, x)])
  {
    hide Flush, FeedRecords, Effects, SelectedAfter, Print;
  }

  lemma SecondIs(s: State, db: nat, y: Argv)
    requires FeedRecords(Some(db), [Write(db, y)]) == [Cmd(y)] && Effects([Write(db, y)]) == [Effect(db, y)] && s.selected == Some(db)
    ensures var s' := Exec(s, [Write(db, y)]);
      && s'.fed == s.fed + [Cmd(y)] && s'.executed == s.executed + [Effect(db, y)] && s'.child == s.child && Content(s') == Content(s)
  {
    hide FeedRecords, Effects, Print;
  }

  lemma TwoCommandsIs(rdb: bool, db: nat, x: Argv, y: Argv)
    ensures TwoCommands(rdb, db, x, y) == Exec(WriteOne(Initial(rdb), db, x), [Write(db, y)])
  {
  }

  lemma TwoCommandsAre(kind: Kinds, rdb: bool, db: nat, x: Argv, y: Argv)
    requires GoodCall(kind, Write(db, x)) && GoodCall(kind, Write(db, y))
    ensures var s, a := TwoCommands(rdb, db, x, y), [Cmd(SelectArgv(db)), Cmd(x)];
      && Inv(kind, s) && s.child.None? && s.executed == [Effect(db, x), Effect(db, y)]
      && s.fed == a + [Cmd(y)] && Content(s) == Print(a)
  {
    hide *;
    FirstCommandIs(kind, rdb, db, x);
    var s0, s1 := FirstCommand(rdb, db, x), WriteOne(Initial(rdb), db, x);
    FirstThen(rdb, db, x);
    OneWrite(kind, None, db, x);
    OneWrite(kind, Some(db), db, y);
    PairIs(SelectArgv(db), x);
    PairIs(SelectArgv(db), y);
    AppendIsSound(kind, Initial(rdb), [Write(db, x)]);
    FlushKeeps(kind, s0, WriteAll);
    FlushIsLocal(s0, WriteAll);
    ExecKeeps(kind, s1, [Write(db, y)]);
    WriteOneText(kind, Initial(rdb), db, x);
    FirstContent(s0, s1, Print(s0.fed));
    SecondIs(s1, db, y);
    TwoCommandsIs(rdb, db, x, y);
  }

  lemma FirstContent(s0: State, s1: State, text: string)
    requires s1.fd == s0.fd && s1.fd in s1.files && s1.files[s1.fd] == Log("" + text)
    ensures Content(s1) == text
  {
    assert "" + text == text;
  }

  lemma OneCommand(kind: Kinds, x: Argv)
    requires kind(x).Other? && Selects(x).None?
    ensures All(kind, [Cmd(x)]) == [Effect(0, x)]
  {
    hide Selects;
    AofResume.OnlyCommand(x);
    AofResume.OneEffective(kind, x);
    assert [x][..0] == [];
    assert Place([], 0) == [] && DbAfter([], 0) == 0;
  }

  lemma WriteIs(kind: Kinds, db: nat, x: Argv)
    requires GoodCall(kind, Write(db, x))
    ensures kind(x).Other? && Selects(x).None?
  {
  }

  /** What a write does that is replayed from the database `at`. */
  lemma WriteDoes(kind: Kinds, selected: Option<nat>, at: nat, db: nat, x: Argv)
    requires GoodCall(kind, Write(db, x)) && (selected.Some? ==> selected.value == at)
    ensures var rs := FeedRecords(selected, [Write(db, x)]);
      var cs := AofLoad.Effective(kind, AofLoad.Commands(rs));
      Good(kind, rs) && Place(cs, at) == [Effect(db, x)] && DbAfter(cs, at) == db
  {
    OneWrite(kind, selected, db, x);
    hide GoodCall, GoodUnit, FeedRecords, Effects, SelectedAfter, AofResume.Cmds, Place, DbAfter, AofLoad.Effective, AofLoad.Commands, Good;
    UnitIsFed(kind, selected, [Write(db, x)], at);
  }

  /** What the first two records and the last one do, by themselves and one after the other. */
  lemma TwoCommandsDo(kind: Kinds, db: nat, x: Argv, y: Argv)
    requires GoodCall(kind, Write(db, x)) && GoodCall(kind, Write(db, y))
    ensures var a, b := [Cmd(SelectArgv(db)), Cmd(x)], [Cmd(y)];
      && Good(kind, a) && Good(kind, b) && All(kind, a) == [Effect(db, x)]
      && All(kind, b) == [Effect(0, y)] && All(kind, a + b) == [Effect(db, x), Effect(db, y)]
  {
    OneRecords(None, db, x);
    OneRecords(Some(db), db, y);
    PairIs(SelectArgv(db), x);
    PairIs(SelectArgv(db), y);
    hide GoodCall, FeedRecords, AofResume.Cmds, SelectArgv, Place, DbAfter, AofLoad.Effective, AofLoad.Commands, Good, Write;
    var a, b := [Cmd(SelectArgv(db)), Cmd(x)], [Cmd(y)];
    WriteDoes(kind, None, 0, db, x);
    WriteDoes(kind, Some(db), db, db, y);
    WriteIs(kind, db, y);
    OneCommand(kind, y);
    Fed(kind, a, b, 0);
  }

  /** A command left in the buffer of a rewrite start is loaded into database 0. */
  lemma SelectRun(kind: Kinds, rdb: bool, db: nat, x: Argv, y: Argv)
    requires GoodCall(kind, Write(db, x)) && GoodCall(kind, Write(db, y)) && db != 0
    ensures var s, o := TwoCommands(rdb, db, x, y), StartOutcome(NoWrite, true, Written, false, rdb);
      && s.executed == [Effect(db, x), Effect(db, y)]
      && Recovered(kind, Flush(StartRewrite(s, o), WriteAll)) == Some([Effect(db, x), Effect(0, y)])
  {
    hide *;
    var s, o := TwoCommands(rdb, db, x, y), StartOutcome(NoWrite, true, Written, false, rdb);
    var a, b := [Cmd(SelectArgv(db)), Cmd(x)], [Cmd(y)];
    TwoCommandsAre(kind, rdb, db, x, y);
    TwoCommandsDo(kind, db, x, y);
    NothingFlushed(kind, s, o);
    MovedIs(kind, s, o);
    var s1 := Flush(Deselect(s), o.flush);
    InvParts(kind, s1);
    MemoryIs(kind, s1);
    Fed(kind, a, b, 0);
    BoundaryOf(kind, a, b);
    RestOf(Print(a), Print(b), Print(a + b));
    WholeReads(kind, b);
    var z := ReadAll(kind, s1.files, Settled(s1.manifest.listing)).value;
    assert |z| == 0;
    assert z + All(kind, a) == All(kind, a);
    PlusOf(z, All(kind, a));
    PlusOf(All(kind, a), All(kind, b));
    assert s1.buf == Print(b);
    assert Recovered(kind, Flush(StartRewrite(s, o), WriteAll)) == Plus(Plus(Some(z), Some(All(kind, a))), Some(All(kind, b)));
    assert [Effect(db, x)] + [Effect(0, y)] == [Effect(db, x), Effect(0, y)];
  }

  /** Behind the first records. */
  lemma BoundaryOf(kind: Kinds, a: seq<Record>, b: seq<Record>)
    requires Good(kind, a)
    ensures Settles(kind, a + b, |Print(a)|) && Kept(kind, a + b, |Print(a)|) == All(kind, a)
  {
    hide Print, AofLoad.OpenMulti, AofLoad.Commands, AofLoad.Effective, AofLoadProofs.Whole, Place, ValidRecord;
    assert (a + b)[..|a|] == a;
    WholeOfPrefix(a + b, |a|);
  }
}
