/** The stream of records fed to one append-only file, of which the file holds the first c
    bytes: what a load of that file gives, and where the stream can be continued. */
module AofStream {
  import opened Text
  import opened Seqs
  import opened AofFormat
  import opened AofLoad
  import opened AofLoadProofs
  import opened AofCut
  import opened AofResume

  // ---------------------------------------------------------------- databases

  /** A data command, in the database it works on. */
  datatype Effect = Effect(db: nat, argv: Argv)

  /** The SELECT that feedAppendOnlyFile writes. */
  function SelectArgv(db: nat): Argv {
    ["SELECT", Dec(db)]
  }

  /** The database a SELECT command asks for. */
  function Selects(argv: Argv): Option<nat> {
    if |argv| == 2 && Lower(argv[0]) == "select" && argv[1] != "" && (forall i :: 0 <= i < |argv[1]| ==> IsDigit(argv[1][i]))
    then Some(ReadDigits(argv[1], 0)) else None
  }

  lemma SelectsBack(db: nat)
    ensures Selects(SelectArgv(db)) == Some(db)
  {
    DecValue(db);
    assert Lower("SELECT") == "select";
  }

  /** The database of a client that has executed cs, starting in `db`. */
  function DbAfter(cs: seq<Argv>, db: nat): nat {
    if cs == [] then db
    else if Selects(cs[|cs| - 1]).Some? then Selects(cs[|cs| - 1]).value
    else DbAfter(cs[..|cs| - 1], db)
  }

  /** What executing cs does, starting in `db`. */
  function Place(cs: seq<Argv>, db: nat): seq<Effect> {
    if cs == [] then []
    else
      var front, last := cs[..|cs| - 1], cs[|cs| - 1];
      Place(front, db) + if Selects(last).Some? then [] else [Effect(DbAfter(front, db), last)]
  }

  lemma {:induction false} PlaceConcat(a: seq<Argv>, b: seq<Argv>, db: nat)
    ensures Place(a + b, db) == Place(a, db) + Place(b, DbAfter(a, db))
    ensures DbAfter(a + b, db) == DbAfter(b, DbAfter(a, db))
  {
    hide Selects;
    if b == [] {
      assert a + b == a;
    } else {
      var n := |b| - 1;
      assert (a + b)[..|a + b| - 1] == a + b[..n] && (a + b)[|a + b| - 1] == b[n];
      PlaceConcat(a, b[..n], db);
    }
  }

  lemma PlaceNothing(db: nat)
    ensures Place([], db) == []
  {
  }

  /** The commands do the same from any database: there are none, or the first one is a SELECT. */
  predicate Anchored(cs: seq<Argv>) {
    cs == [] || Selects(cs[0]).Some?
  }

  lemma {:induction false} PlaceFirst(cs: seq<Argv>, db: nat)
    requires cs != []
    ensures Place(cs, db) == (if Selects(cs[0]).Some? then [] else [Effect(db, cs[0])]) + Place(cs[1..], DbAfter(cs[..1], db))
  {
    assert cs == cs[..1] + cs[1..];
    PlaceConcat(cs[..1], cs[1..], db);
    assert cs[..1][..0] == [];
  }

  /** Commands moved to a client in database 0 do the same there if and only if they are anchored, or
      came from database 0. */
  lemma PlacedAlikeIff(cs: seq<Argv>, db: nat)
    ensures Place(cs, db) == Place(cs, 0) <==> Anchored(cs) || db == 0
  {
    if cs != [] {
      PlaceFirst(cs, db);
      PlaceFirst(cs, 0);
      if Selects(cs[0]).Some? {
        assert DbAfter(cs[..1], db) == DbAfter(cs[..1], 0);
      } else if db != 0 {
        assert Place(cs, db)[0] == Effect(db, cs[0]) && Place(cs, 0)[0] == Effect(0, cs[0]);
      }
    }
  }

  // ---------------------------------------------------------------- streams

  /** Records a server feeds: well formed, known, and with every MULTI closed. */
  ghost predicate Good(kind: Argv -> Kind, rs: seq<Record>) {
    ValidRecords(rs) && Known(kind, rs) && OpenMulti(kind, Commands(rs)).None?
  }

  /** What a stream does: every file is replayed by a new client, in database 0. */
  function All(kind: Argv -> Kind, rs: seq<Record>): seq<Effect> {
    Place(Effective(kind, Commands(rs)), 0)
  }

  /** The database of that client at the end. */
  function Db(kind: Argv -> Kind, rs: seq<Record>): nat {
    DbAfter(Effective(kind, Commands(rs)), 0)
  }

  /** What is safe in the first c bytes: commands wholly there, and in no open MULTI. */
  function Kept(kind: Argv -> Kind, rs: seq<Record>, c: nat): seq<Effect> {
    Place(Effective(kind, Commands(rs[..Whole(rs, c)])), 0)
  }

  /** What is not. */
  function Pending(kind: Argv -> Kind, rs: seq<Record>, c: nat): seq<Effect> {
    if |Kept(kind, rs, c)| <= |All(kind, rs)| then All(kind, rs)[|Kept(kind, rs, c)|..] else []
  }

  /** No command is cut in two and no MULTI is open at byte c: the file loads without being truncated. */
  predicate Settles(kind: Argv -> Kind, rs: seq<Record>, c: nat) {
    var n := Whole(rs, c);
    && OpenMulti(kind, Commands(rs[..n])).None?
    && !(Partial(rs, c) && n < |rs| && rs[n].Cmd?)
  }

  /** The first c bytes are whole records with every MULTI closed: another file can go on from there. */
  predicate Closes(kind: Argv -> Kind, rs: seq<Record>, c: nat) {
    Settles(kind, rs, c) && !Partial(rs, c)
  }

  /** The commands behind the first c bytes do the same at the start of another file. */
  predicate Movable(kind: Argv -> Kind, rs: seq<Record>, c: nat) {
    var n := Whole(rs, c);
    Anchored(Effective(kind, Commands(rs[n..]))) || Db(kind, rs[..n]) == 0
  }

  // ---------------------------------------------------------------- loading

  lemma NothingKept(kind: Argv -> Kind, rs: seq<Record>)
    ensures Kept(kind, rs, 0) == [] && Closes(kind, rs, 0)
  {
    NothingWhole(rs);
    NothingExecuted(kind);
    EmptyOpen(kind);
    EmptyPrint();
    assert rs[..0] == [];
  }

  /** Loading the first c bytes gives what is kept; it is not truncated exactly when the stream settles. */
  lemma LoadOfStream(kind: Argv -> Kind, rs: seq<Record>, c: nat)
    requires ValidRecords(rs) && Known(kind, rs) && c <= |Print(rs)|
    ensures var l := Load(kind, Print(rs)[..c]);
      && Place(l.executed, 0) == Kept(kind, rs, c)
      && !l.status.AofFailed?
      && (l.status.AofTruncated? <==> !Settles(kind, rs, c))
  {
    hide *;
    KnownPrefix(kind, rs, Whole(rs, c));
    LoadOfKnownStream(kind, rs, c);
  }

  lemma LoadOfKnownStream(kind: Argv -> Kind, rs: seq<Record>, c: nat)
    requires ValidRecords(rs) && c <= |Print(rs)| && Known(kind, rs[..Whole(rs, c)])
    ensures var l := Load(kind, Print(rs)[..c]);
      && Place(l.executed, 0) == Kept(kind, rs, c)
      && !l.status.AofFailed?
      && (l.status.AofTruncated? <==> !Settles(kind, rs, c))
  {
    hide Print, Effective, Load, ValidRecords, Known, Place;
    LoadOfKnownPart(kind, rs, c);
    if c == 0 {
      NothingKept(kind, rs);
      PlaceNothing(0);
    }
  }

  lemma EmptyStream(kind: Argv -> Kind)
    ensures Good(kind, []) && All(kind, []) == [] && Print([]) == ""
  {
  }

  // ---------------------------------------------------------------- kept and pending

  lemma {:induction false} EffectivePrefix(kind: Argv -> Kind, a: seq<Argv>, b: seq<Argv>)
    requires OpenMulti(kind, a + b).None?
    ensures Effective(kind, a) <= Effective(kind, a + b)
  {
    hide DataCommands, OpenMulti;
    DataConcat(kind, a, b);
    if OpenMulti(kind, a).Some? {
      var i := OpenMulti(kind, a).value;
      assert a == a[..i] + a[i..];
      DataConcat(kind, a[..i], a[i..]);
    }
  }

  lemma PlacePrefix(a: seq<Argv>, b: seq<Argv>, db: nat)
    requires a <= b
    ensures Place(a, db) <= Place(b, db)
  {
    assert b == a + b[|a|..];
    PlaceConcat(a, b[|a|..], db);
  }

  /** Kept and pending commands together are the stream. */
  lemma KeptAndPending(kind: Argv -> Kind, rs: seq<Record>, c: nat)
    requires OpenMulti(kind, Commands(rs)).None?
    ensures All(kind, rs) == Kept(kind, rs, c) + Pending(kind, rs, c)
  {
    hide Effective, OpenMulti, Commands, Place;
    var n := Whole(rs, c);
    assert rs == rs[..n] + rs[n..];
    CommandsConcat(rs[..n], rs[n..]);
    EffectivePrefix(kind, Commands(rs[..n]), Commands(rs[n..]));
    PlacePrefix(Effective(kind, Commands(rs[..n])), Effective(kind, Commands(rs)), 0);
  }

  /** When all bytes are in the file nothing is pending. */
  lemma NothingPending(kind: Argv -> Kind, rs: seq<Record>)
    ensures Kept(kind, rs, |Print(rs)|) == All(kind, rs) && Pending(kind, rs, |Print(rs)|) == []
  {
    hide Effective, Commands, Print;
    WholeOfAll(rs);
    assert rs[..|rs|] == rs;
  }

  // ---------------------------------------------------------------- feeding

  lemma {:induction false} WholeOfMore(rs: seq<Record>, more: seq<Record>, c: nat)
    requires c <= |Print(rs)|
    ensures Whole(rs + more, c) == Whole(rs, c)
  {
    hide PrintRecord;
    if rs == [] {
      EmptyPrint();
      NothingWhole(more);
      assert rs + more == more;
    } else {
      assert (rs + more)[0] == rs[0] && (rs + more)[1..] == rs[1..] + more;
      if |PrintRecord(rs[0])| <= c {
        WholeOfMore(rs[1..], more, c - |PrintRecord(rs[0])|);
      }
    }
  }

  /** Feeding more records keeps the stream good and changes nothing that is kept. */
  lemma Fed(kind: Argv -> Kind, rs: seq<Record>, more: seq<Record>, c: nat)
    requires Good(kind, rs) && Good(kind, more) && c <= |Print(rs)|
    ensures Good(kind, rs + more) && Print(rs + more) == Print(rs) + Print(more)
    ensures All(kind, rs + more) == All(kind, rs) + Place(Effective(kind, Commands(more)), Db(kind, rs))
    ensures Db(kind, rs + more) == DbAfter(Effective(kind, Commands(more)), Db(kind, rs))
    ensures Kept(kind, rs + more, c) == Kept(kind, rs, c)
  {
    hide PrintRecord, Print, Effective, OpenMulti, Commands, ValidRecord, Whole, Place, DbAfter;
    PrintConcat(rs, more);
    ConcatValid(kind, rs, more);
    CommandsConcat(rs, more);
    EffectiveConcat(kind, Commands(rs), Commands(more));
    PlaceConcat(Effective(kind, Commands(rs)), Effective(kind, Commands(more)), 0);
    WholeOfMore(rs, more, c);
    assert (rs + more)[..Whole(rs, c)] == rs[..Whole(rs, c)];
  }

  lemma SettlesOfMore(kind: Argv -> Kind, rs: seq<Record>, more: seq<Record>, c: nat)
    requires c <= |Print(rs)|
    ensures Settles(kind, rs + more, c) == Settles(kind, rs, c)
  {
    hide PrintRecord, Print, OpenMulti, Commands, Whole;
    WholeOfMore(rs, more, c);
    var n := Whole(rs, c);
    assert (rs + more)[..n] == rs[..n];
    if n == |rs| {
      assert rs[..n] == rs;
    } else {
      assert (rs + more)[n] == rs[n];
    }
  }

  // ---------------------------------------------------------------- the next file

  /** Where no MULTI is open, the rest of the stream does in another file what it did here if and only
      if it is movable. */
  lemma RestDoes(kind: Argv -> Kind, rs: seq<Record>, c: nat)
    requires OpenMulti(kind, Commands(rs[..Whole(rs, c)])).None?
    ensures All(kind, rs) == Kept(kind, rs, c) + All(kind, rs[Whole(rs, c)..]) <==> Movable(kind, rs, c)
  {
    hide Effective, OpenMulti, Commands, Whole, Place, DbAfter, Anchored;
    var n := Whole(rs, c);
    assert rs == rs[..n] + rs[n..];
    CommandsConcat(rs[..n], rs[n..]);
    var a, b := Commands(rs[..n]), Commands(rs[n..]);
    EffectiveConcat(kind, a, b);
    PlaceConcat(Effective(kind, a), Effective(kind, b), 0);
    PlacedAlikeIff(Effective(kind, b), Db(kind, rs[..n]));
    SameTail(Kept(kind, rs, c), Place(Effective(kind, b), Db(kind, rs[..n])), All(kind, rs[n..]));
  }

  /** Where the stream closes, the rest of it is a good stream of its own, and it does there what it
      did here if and only if it is movable. */
  lemma Split(kind: Argv -> Kind, rs: seq<Record>, c: nat)
    requires Good(kind, rs) && c <= |Print(rs)| && Closes(kind, rs, c)
    ensures var n := Whole(rs, c);
      && Good(kind, rs[n..]) && (All(kind, rs) == Kept(kind, rs, c) + All(kind, rs[n..]) <==> Movable(kind, rs, c))
      && Print(rs)[c..] == Print(rs[n..]) && Print(rs)[..c] == Print(rs[..n])
  {
    hide PrintRecord, Print, Effective, OpenMulti, Commands, ValidRecord, Whole, All, Kept, Movable;
    var n := Whole(rs, c);
    CutShape(rs, c);
    PrintSplit(rs, n);
    assert rs == rs[..n] + rs[n..];
    CommandsConcat(rs[..n], rs[n..]);
    EffectiveConcat(kind, Commands(rs[..n]), Commands(rs[n..]));
    RestDoes(kind, rs, c);
  }

  // ---------------------------------------------------------------- going on after a load

  lemma {:induction false} WholeOfPrefix(rs: seq<Record>, k: nat)
    requires k <= |rs|
    ensures Whole(rs, |Print(rs[..k])|) == k
  {
    hide Print, Whole, PrintRecord;
    assert rs == rs[..k] + rs[k..];
    WholeOfMore(rs[..k], rs[k..], |Print(rs[..k])|);
    WholeOfAll(rs[..k]);
  }

  lemma RemainingIsPrefix(kind: Argv -> Kind, rs: seq<Record>, c: nat)
    ensures Remaining(kind, rs, c) <= rs
  {
    hide Commands, OpenMulti, Whole, Partial;
  }

  /** What a load leaves after a safe cut: whole records, good, and just what was loaded. */
  lemma Reopened(kind: Argv -> Kind, rs: seq<Record>, c: nat)
    requires ValidRecords(rs) && Known(kind, rs) && c <= |Print(rs)| && SafeToAppend(kind, rs, c)
    ensures var f := Load(kind, Print(rs)[..c]).file;
      var left := rs[..Whole(rs, |f|)];
      Good(kind, left) && Print(left) == f && All(kind, left) == Kept(kind, rs, c)
  {
    hide PrintRecord, Print, Commands, OpenMulti, ValidRecord, Load, Whole, Effective, LastMulti, Remaining, Place;
    var left := Remaining(kind, rs, c);
    RemainingOpen(kind, rs, c);
    assert Load(kind, Print(rs)[..c]).status.AofTruncated? || !Partial(rs, c) by { LoadOfCutFile(kind, rs, c); CutShape(rs, c); }
    LeftOver(kind, rs, c);
    PartsValid(kind, rs, c);
    RemainingIsPrefix(kind, rs, c);
    RemainingIsEffective(kind, rs, c);
    assert left == rs[..|left|];
    WholeOfPrefix(rs, |left|);
  }

  // ---------------------------------------------------------------- a hole

  /** What does not start like a record behind whole records is a format error, whatever follows it: the
      zero bytes of a hole, for one.  The commands before it were executed, and the file is left as it is. */
  lemma GarbageIsFormatError(kind: Argv -> Kind, rs: seq<Record>, n: nat, rest: string)
    requires ValidRecords(rs) && Known(kind, rs) && n <= |rs| && rest != "" && rest[0] != '#' && rest[0] != '*'
    ensures Load(kind, Print(rs[..n]) + rest) ==
      Loaded(AofFailed, Effective(kind, Commands(rs[..n])), Print(rs[..n]) + rest)
  {
    hide PrintRecord, Print, Load, Commands, ValidRecords, Known;
    var g, p := Print(rs[..n]) + rest, |Print(rs[..n])|;
    assert g[p] == rest[0];
    StopsAtFormatError(kind, rs, n, rest);
  }

  /** A header line with a negative number. */
  function NegativeHeader(mark: char, n: nat): string {
    [mark] + "-" + Dec(n) + CRLF
  }

  lemma NegativeRead(f: string, p: nat, mark: char, n: nat)
    requires mark != '\n' && n < 0x8000_0000_0000_0000 && At(f, p, NegativeHeader(mark, n))
    ensures var q := p + |NegativeHeader(mark, n)|;
      && q <= |f| && q > p + 1 && f[p] == mark && f[p + 1] == '-' && FGets(f, p) == q && ParseNum(f[p + 1..q]) == -(n as int)
  {
    var h, q := NegativeHeader(mark, n), p + |NegativeHeader(mark, n)|;
    HeaderIsShort(mark, n);
    assert |h| == |Header(mark, n)| + 1;
    hide LineEnd;
    assert forall k :: p <= k < q ==> f[k] == f[p..q][k - p] == h[k - p];
    LineEndsAt(f, p, LINE_MAX - 1, q);
    var digits := Dec(n) + CRLF;
    assert f[p + 1..q] == h[1..] == "-" + digits;
    assert ("-" + digits)[1..] == digits;
    DigitsReadBack(n);
  }

  lemma DigitsReadBack(n: nat)
    ensures ReadDigits(Dec(n) + CRLF, 0) == n
  {
    ReadDigitsConcat(Dec(n), CRLF, 0);
    DecValue(n);
  }

  /** Text that does not start like an argument: no '$', or a negative length. */
  ghost predicate NoArgument(more: string) {
    more != "" && (more[0] != '$' || exists k :: 1 <= k < 0x8000_0000_0000_0000 && NegativeHeader('$', k) <= more)
  }

  /** Arguments that stop short of the count, with something behind them that is no argument. */
  lemma {:induction false} BadArgs(f: string, p: nat, argv: Argv, more: string, todo: nat, acc: Argv)
    requires ValidArgs(argv) && At(f, p, PrintArgs(argv) + more) && |argv| < todo && NoArgument(more)
    ensures ReadArgs(f, p, todo, acc) == FormatError
    decreases |argv|
  {
    hide ReadArg, PrintArgs, At, NoArgument;
    if argv == [] {
      NoArgHere(f, p, more);
    } else {
      AtParts(f, p, PrintArgs(argv), more);
      ArgRead(f, p, argv);
      var next := p + |PrintArgs(argv)| - |PrintArgs(argv[1..])|;
      AtJoined(f, next, PrintArgs(argv[1..]), more);
      BadArgs(f, next, argv[1..], more, todo - 1, acc + [argv[0]]);
    }
  }

  lemma NoArgHere(f: string, p: nat, more: string)
    requires At(f, p, PrintArgs([]) + more) && NoArgument(more)
    ensures p <= |f| && ReadArg(f, p) == BadArg
  {
    assert PrintArgs([]) + more == more;
    assert f[p] == f[p..p + |more|][0];
    if more[0] == '$' {
      var k :| 1 <= k < 0x8000_0000_0000_0000 && NegativeHeader('$', k) <= more;
      assert f[p..p + |NegativeHeader('$', k)|] == f[p..p + |more|][..|NegativeHeader('$', k)|];
      NegativeRead(f, p, '$', k);
    }
  }

  lemma AtJoined(f: string, p: nat, a: string, b: string)
    requires At(f, p, a) && At(f, p + |a|, b)
    ensures At(f, p, a + b)
  {
    assert f[p..p + |a + b|] == f[p..p + |a|] + f[p + |a|..p + |a| + |b|];
  }

  /** A count of zero, or something else where an argument should be, is a format error too: no '$', or a
      negative length. */
  lemma BadCommandIsFormatError(kind: Argv -> Kind, rs: seq<Record>, n: nat, argc: nat, argv: Argv, more: string)
    requires ValidRecords(rs) && Known(kind, rs) && n <= |rs| && argc < 0x8000_0000 && ValidArgs(argv)
    requires argc == 0 || (|argv| < argc && NoArgument(more))
    ensures var g := Print(rs[..n]) + (Header('*', argc) + (PrintArgs(argv) + more));
      Load(kind, g) == Loaded(AofFailed, Effective(kind, Commands(rs[..n])), g)
  {
    hide *;
    var front, rest := Print(rs[..n]), Header('*', argc) + (PrintArgs(argv) + more);
    BadCommandReads(front, argc, argv, more);
    Header1(argc, PrintArgs(argv) + more);
    StopsAtFormatError(kind, rs, n, rest);
  }

  /** So is a negative count. */
  lemma NegativeCountIsFormatError(kind: Argv -> Kind, rs: seq<Record>, n: nat, k: nat, more: string)
    requires ValidRecords(rs) && Known(kind, rs) && n <= |rs| && k < 0x8000_0000
    ensures var g := Print(rs[..n]) + (NegativeHeader('*', k) + more);
      Load(kind, g) == Loaded(AofFailed, Effective(kind, Commands(rs[..n])), g)
  {
    var front, rest := Print(rs[..n]), NegativeHeader('*', k) + more;
    assert rest != "";
    NegativeCountReads(front, k, more);
    hide *;
    StopsAtFormatError(kind, rs, n, rest);
  }

  lemma NegativeCountReads(front: string, k: nat, more: string)
    requires k < 0x8000_0000
    ensures ReadRecord(front + (NegativeHeader('*', k) + more), |front|) == FormatError
  {
    var h := NegativeHeader('*', k);
    var g, p := front + (h + more), |front|;
    hide NegativeHeader, ParseNum, FGets, ReadArgs;
    assert g[p..p + |h|] == h;
    NegativeRead(g, p, '*', k);
  }

  lemma Header1(argc: nat, rest: string)
    ensures Header('*', argc) + rest != ""
  {
  }

  lemma BadCommandReads(front: string, argc: nat, argv: Argv, more: string)
    requires argc < 0x8000_0000 && ValidArgs(argv) && (argc == 0 || (|argv| < argc && NoArgument(more)))
    ensures ReadRecord(front + (Header('*', argc) + (PrintArgs(argv) + more)), |front|) == FormatError
  {
    hide *;
    var h, rest, p := Header('*', argc), PrintArgs(argv) + more, |front|;
    var g := front + (h + rest);
    TailAt(front, h + rest);
    AtParts(g, p, h, rest);
    AtIs(g, p, h);
    HeaderRead(g, p, '*', argc);
    if argc > 0 {
      BadArgs(g, p + |h|, argv, more, argc, []);
    }
    BadRecord(g, p, argc);
  }

  lemma AtIs(f: string, p: nat, s: string)
    requires At(f, p, s)
    ensures p + |s| <= |f| && f[p..p + |s|] == s
  {
  }

  /** A format error behind whole records. */
  lemma StopsAtFormatError(kind: Argv -> Kind, rs: seq<Record>, n: nat, rest: string)
    requires ValidRecords(rs) && Known(kind, rs) && n <= |rs| && rest != ""
    requires ReadRecord(Print(rs[..n]) + rest, |Print(rs[..n])|) == FormatError
    ensures Load(kind, Print(rs[..n]) + rest) ==
      Loaded(AofFailed, Effective(kind, Commands(rs[..n])), Print(rs[..n]) + rest)
  {
    hide PrintRecord, Print, Run, Commands, OpenMulti, ValidRecords, Known, ReadRecord;
    var g, p := Print(rs[..n]) + rest, |Print(rs[..n])|;
    assert g[..p] == Print(rs[..n]);
    KnownPrefix(kind, rs, n);
    LoadsRecords(kind, g, rs, 0, n);
    EmptyPrint();
    assert rs[..0] == [];
    assert Load(kind, g) == Resumed(kind, g, rs, n);
    AfterBounds(kind, rs[..n]);
    AfterAgrees(kind, rs[..n]);
  }

  lemma TailAt(a: string, b: string)
    ensures At(a + b, |a|, b)
  {
  }

  lemma BadRecord(g: string, p: nat, argc: nat)
    requires p + |Header('*', argc)| <= |g| && At(g, p, Header('*', argc))
    requires var q := p + |Header('*', argc)|; FGets(g, p) == q && ParseNum(g[p + 1..q]) == argc
    requires argc > 0 ==> ReadArgs(g, p + |Header('*', argc)|, argc, []) == FormatError
    ensures ReadRecord(g, p) == FormatError
  {
    hide ParseNum, FGets, ReadArgs;
    var h := Header('*', argc);
    assert g[p] == g[p..p + |h|][0] == '*';
    assert g[p + 1] == g[p..p + |h|][1] == Dec(argc)[0];
  }

  /** The text of the command "a" with a zero byte behind the digits of its length line. */
  function Holed(): string {
    "*1\r\n$1" + [NUL] + "\r\na\r\n"
  }

  lemma HoledReads()
    ensures |Holed()| == 12 && ReadRecord(Holed(), 0) == Command(["a"], 12) && ReadRecord(Holed(), 12) == End
  {
    var f := Holed();
    assert f[4] == '$' && f[..4] == "*1\r\n";
    LineEndsAt(f, 0, LINE_MAX - 1, 4);
    LineEndsAt(f, 4, LINE_MAX - 1, 9);
    One("\r\n");
    One([NUL] + "\r\n");
    assert f[1..4] == "1" + "\r\n" && f[5..9] == "1" + ([NUL] + "\r\n");
    hide ParseNum, LineEnd, Holed;
    assert f[9..10] == "a";
    assert ReadArg(f, 4) == GotArg("a", 12);
    assert ReadArgs(f, 4, 1, []) == Command(["a"], 12) by { assert [] + ["a"] == ["a"]; }
  }

  /** Inside a record a hole can be harmless: behind the digits of a length line it is not even read. */
  lemma HoleInLengthLine(kind: Argv -> Kind)
    requires kind(["a"]).Other?
    ensures Load(kind, Holed()) == Loaded(AofOk, [["a"]], Holed())
  {
    HoledReads();
    hide ReadRecord, Holed;
    assert [] + [["a"]] == [["a"]];
    assert Run(kind, Start, ["a"], 12).executed == [["a"]];
  }

  lemma One(rest: string)
    requires rest != "" && !IsDigit(rest[0])
    ensures ParseNum("1" + rest) == 1
  {
    assert Dec(1) == "1";
    DecReadsBack(1, rest);
  }
}
