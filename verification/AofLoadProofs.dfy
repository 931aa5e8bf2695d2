/** Loading a file cut at any byte. */
module AofLoadProofs {
  import opened Text
  import opened AofFormat
  import opened AofLoad

  // ---------------------------------------------------------------- lines

  lemma {:induction false} LineEndsAt(f: string, p: nat, room: nat, q: nat)
    requires p < q <= |f| && q - p <= room
    requires forall k :: p <= k < q - 1 ==> f[k] != '\n'
    requires f[q - 1] == '\n' || q == |f|
    ensures LineEnd(f, p, room) == q
    decreases room
  {
    if p + 1 < q {
      LineEndsAt(f, p + 1, room - 1, q);
    } else if f[p] != '\n' {
      assert LineEnd(f, p + 1, room - 1) == p + 1;
    }
  }

  lemma HeaderHasOneNewline(mark: char, n: nat)
    requires mark != '\n'
    ensures var h := Header(mark, n);
      h[|h| - 1] == '\n' && forall k :: 0 <= k < |h| - 1 ==> h[k] != '\n'
    ensures Header(mark, n)[0] == mark && |Header(mark, n)| >= 4
  {
  }

  /** A whole header line: the number is read back. */
  lemma HeaderRead(f: string, p: nat, mark: char, n: nat)
    requires mark != '\n' && n < 0x8000_0000_0000_0000
    requires var h := Header(mark, n); p + |h| <= |f| && f[p..p + |h|] == h
    ensures var q := p + |Header(mark, n)|;
      f[p] == mark && FGets(f, p) == q && q > p + 1 && f[p + 1] != NUL && ParseNum(f[p + 1..q]) == n
  {
    hide ParseNum, LineEnd;
    var h := Header(mark, n);
    var q := p + |h|;
    HeaderHasOneNewline(mark, n);
    HeaderIsShort(mark, n);
    assert forall k :: p <= k < q ==> f[k] == f[p..q][k - p] == h[k - p];
    LineEndsAt(f, p, LINE_MAX - 1, q);
    assert f[p + 1..q] == h[1..] == Dec(n) + CRLF;
    DecReadsBack(n, CRLF);
  }

  /** A header line cut short: whatever is read as its number, it is at the end of the file. */
  lemma HeaderCut(f: string, p: nat, mark: char, n: nat)
    requires mark != '\n' && n < 0x8000_0000_0000_0000
    requires p < |f| && |f| - p < |Header(mark, n)| && f[p..] == Header(mark, n)[..|f| - p]
    ensures f[p] == mark && FGets(f, p) == |f| && ParseNum(f[p + 1..|f|]) >= 0
    ensures |f| > p + 1 ==> f[p + 1] != NUL && (n >= 1 ==> ParseNum(f[p + 1..|f|]) >= 1)
    ensures |f| == p + 1 ==> MetEnd(f, p, |f|)
  {
    hide ParseNum, LineEnd;
    var h := Header(mark, n);
    HeaderHasOneNewline(mark, n);
    HeaderIsShort(mark, n);
    assert forall k :: p <= k < |f| ==> f[k] == f[p..][k - p] == h[k - p];
    LineEndsAt(f, p, LINE_MAX - 1, |f|);
    var s := f[p + 1..|f|];
    assert s != "" ==> s[0] == f[p + 1] == h[1] == Dec(n)[0];
    CutNumber(s);
  }

  // ---------------------------------------------------------------- arguments

  /** f holds s at position p. */
  ghost predicate At(f: string, p: nat, s: string) {
    p + |s| <= |f| && f[p..p + |s|] == s
  }

  /** f ends inside s, which starts at position p. */
  ghost predicate EndsInside(f: string, p: nat, s: string) {
    p <= |f| && |f| - p < |s| && f[p..] == s[..|f| - p]
  }

  lemma AtParts(f: string, p: nat, a: string, b: string)
    requires At(f, p, a + b)
    ensures At(f, p, a) && At(f, p + |a|, b)
  {
    var s := f[p..p + |a + b|];
    assert f[p..p + |a|] == s[..|a|] && f[p + |a|..p + |a + b|] == s[|a|..];
    assert (a + b)[..|a|] == a && (a + b)[|a|..] == b;
  }

  /** Either the file ends inside a, or a is whole and it ends inside b. */
  lemma EndsInsideParts(f: string, p: nat, a: string, b: string)
    requires EndsInside(f, p, a + b)
    ensures EndsInside(f, p, a) || (At(f, p, a) && EndsInside(f, p + |a|, b))
  {
    var n := |f| - p;
    if n < |a| {
      assert (a + b)[..n] == a[..n];
    } else {
      assert f[p..p + |a|] == f[p..][..|a|] == (a + b)[..n][..|a|] == a;
      assert f[p + |a|..] == f[p..][|a|..] == (a + b)[..n][|a|..] == b[..n - |a|];
    }
  }

  ghost predicate ValidArgs(argv: Argv) {
    forall i :: 0 <= i < |argv| ==> |argv[i]| < 0x8000_0000_0000_0000
  }

  lemma PrintArgsSplit(argv: Argv)
    requires argv != []
    ensures PrintArgs(argv) == Header('$', |argv[0]|) + (argv[0] + (CRLF + PrintArgs(argv[1..])))
  {
  }

  lemma MoveHead<T>(acc: seq<T>, s: seq<T>)
    requires s != []
    ensures acc + s == acc + [s[0]] + s[1..]
  {
  }

  /** One argument is read. */
  lemma ArgRead(f: string, p: nat, argv: Argv)
    requires argv != [] && ValidArgs(argv) && At(f, p, PrintArgs(argv))
    ensures var next := p + |PrintArgs(argv)| - |PrintArgs(argv[1..])|;
      && At(f, next, PrintArgs(argv[1..]))
      && ReadArg(f, p) == GotArg(argv[0], next)
  {
    hide ParseNum, FGets, Header, PrintArgs;
    var arg, rest := argv[0], argv[1..];
    var h := Header('$', |arg|);
    PrintArgsSplit(argv);
    AtParts(f, p, h, arg + (CRLF + PrintArgs(rest)));
    AtParts(f, p + |h|, arg, CRLF + PrintArgs(rest));
    AtParts(f, p + |h| + |arg|, CRLF, PrintArgs(rest));
    HeaderRead(f, p, '$', |arg|);
    var q := p + |h|;
    assert f[q..q + |arg|] == arg;
  }

  lemma {:induction false} ArgsRead(f: string, p: nat, argv: Argv, acc: Argv)
    requires ValidArgs(argv) && At(f, p, PrintArgs(argv))
    ensures ReadArgs(f, p, |argv|, acc) == Command(acc + argv, p + |PrintArgs(argv)|)
    decreases |argv|
  {
    hide ReadArg;
    if argv == [] {
      assert acc + [] == acc;
    } else {
      ArgRead(f, p, argv);
      ArgsRead(f, p + |PrintArgs(argv)| - |PrintArgs(argv[1..])|, argv[1..], acc + [argv[0]]);
      MoveHead(acc, argv);
    }
  }

  /** The first argument is cut short, or it is read and the file ends inside the others. */
  lemma ArgCut(f: string, p: nat, argv: Argv)
    requires ValidArgs(argv) && EndsInside(f, p, PrintArgs(argv)) && argv != []
    ensures var next := p + |PrintArgs(argv)| - |PrintArgs(argv[1..])|;
      ReadArg(f, p).ShortArg? || (ReadArg(f, p) == GotArg(argv[0], next) && EndsInside(f, next, PrintArgs(argv[1..])))
  {
    hide ParseNum, FGets, Header, PrintArgs;
    if p < |f| {
      var arg, rest := argv[0], argv[1..];
      var h := Header('$', |arg|);
      var q := p + |h|;
      PrintArgsSplit(argv);
      EndsInsideParts(f, p, h, arg + (CRLF + PrintArgs(rest)));
      if EndsInside(f, p, h) {
        HeaderCut(f, p, '$', |arg|);
      } else {
        HeaderRead(f, p, '$', |arg|);
        EndsInsideParts(f, q, arg, CRLF + PrintArgs(rest));
        if !EndsInside(f, q, arg) {
          EndsInsideParts(f, q + |arg|, CRLF, PrintArgs(rest));
        }
      }
    }
  }

  /** A file that ends inside the arguments is a short read. */
  lemma {:induction false} ArgsCut(f: string, p: nat, argv: Argv, acc: Argv)
    requires ValidArgs(argv) && EndsInside(f, p, PrintArgs(argv))
    ensures ReadArgs(f, p, |argv|, acc) == ReadError
    decreases |argv|
  {
    hide ReadArg;
    ArgCut(f, p, argv);
    if ReadArg(f, p).GotArg? {
      ArgsCut(f, ReadArg(f, p).next, argv[1..], acc + [argv[0]]);
    }
  }

  // ---------------------------------------------------------------- records

  lemma RecordRead(f: string, p: nat, r: Record)
    requires ValidRecord(r) && At(f, p, PrintRecord(r))
    ensures ReadRecord(f, p) ==
      match r
      case Note(_) => Annotation(p + |PrintRecord(r)|)
      case Cmd(argv) => Command(argv, p + |PrintRecord(r)|)
  {
    hide ParseNum, LineEnd, Header, ReadArgs;
    match r
    case Note(text) =>
      var s := text + CRLF;
      var q := p + |s|;
      assert forall k :: p <= k < q ==> f[k] == f[p..q][k - p] == s[k - p];
      LineEndsAt(f, p, LINE_MAX - 1, q);
    case Cmd(argv) =>
      var h := Header('*', |argv|);
      AtParts(f, p, h, PrintArgs(argv));
      HeaderRead(f, p, '*', |argv|);
      ArgsRead(f, p + |h|, argv, []);
      assert [] + argv == argv;
  }

  /** A file that ends inside a record: a command is a short read, an annotation is skipped. */
  lemma RecordCut(f: string, p: nat, r: Record)
    requires ValidRecord(r) && EndsInside(f, p, PrintRecord(r)) && p < |f|
    ensures ReadRecord(f, p) == if r.Note? then Annotation(|f|) else ReadError
  {
    hide ParseNum, LineEnd, Header, ReadArgs;
    match r
    case Note(text) =>
      var s := text + CRLF;
      assert forall k :: p <= k < |f| ==> f[k] == f[p..][k - p] == s[k - p];
      LineEndsAt(f, p, LINE_MAX - 1, |f|);
    case Cmd(argv) =>
      var h := Header('*', |argv|);
      EndsInsideParts(f, p, h, PrintArgs(argv));
      if EndsInside(f, p, h) {
        HeaderCut(f, p, '*', |argv|);
        if |f| > p + 1 {
          assert ReadArgs(f, |f|, ParseNum(f[p + 1..|f|]), []) == ReadError by {
            NothingLeft(f, ParseNum(f[p + 1..|f|]));
          }
        }
      } else {
        HeaderRead(f, p, '*', |argv|);
        ArgsCut(f, p + |h|, argv, []);
      }
  }

  lemma NothingLeft(f: string, argc: int)
    requires argc >= 1
    ensures ReadArgs(f, |f|, argc, []) == ReadError
  {
  }

  // ---------------------------------------------------------------- the whole file

  lemma {:induction false} PrintConcat(a: seq<Record>, b: seq<Record>)
    ensures Print(a + b) == Print(a) + Print(b)
  {
    hide PrintRecord;
    if a == [] {
      assert a + b == b;
    } else {
      assert (a + b)[1..] == a[1..] + b;
      PrintConcat(a[1..], b);
    }
  }

  lemma PrintSnoc(rs: seq<Record>, i: nat)
    requires i < |rs|
    ensures Print(rs[..i + 1]) == Print(rs[..i]) + PrintRecord(rs[i])
  {
    hide PrintRecord;
    assert rs[..i + 1] == rs[..i] + [rs[i]];
    PrintConcat(rs[..i], [rs[i]]);
    assert [rs[i]][1..] == [];
  }

  lemma PrintSplit(rs: seq<Record>, i: nat)
    requires i <= |rs|
    ensures Print(rs) == Print(rs[..i]) + Print(rs[i..])
  {
    assert rs == rs[..i] + rs[i..];
    PrintConcat(rs[..i], rs[i..]);
  }

  /** How many records are wholly within the first c bytes. */
  function Whole(rs: seq<Record>, c: nat): (n: nat)
    ensures n <= |rs|
  {
    if rs != [] && |PrintRecord(rs[0])| <= c then 1 + Whole(rs[1..], c - |PrintRecord(rs[0])|) else 0
  }

  lemma {:induction false} WholeBounds(rs: seq<Record>, c: nat)
    ensures var n := Whole(rs, c);
      |Print(rs[..n])| <= c && (n < |rs| ==> c < |Print(rs[..n + 1])|)
  {
    hide PrintRecord;
    var n := Whole(rs, c);
    if rs == [] || |PrintRecord(rs[0])| > c {
      assert rs[..0] == [];
      if rs != [] { PrintSnoc(rs, 0); }
    } else {
      WholeBounds(rs[1..], c - |PrintRecord(rs[0])|);
      assert rs[..n] == [rs[0]] + rs[1..][..n - 1] && rs[..n][1..] == rs[1..][..n - 1];
      if n < |rs| {
        assert rs[..n + 1][1..] == rs[1..][..n];
      }
    }
  }

  ghost predicate Known(kind: Argv -> Kind, rs: seq<Record>) {
    forall i :: 0 <= i < |rs| && rs[i].Cmd? ==> !kind(rs[i].argv).Unknown?
  }

  /** The loader after a list of records. */
  function After(kind: Argv -> Kind, rs: seq<Record>): Loader {
    if rs == [] then Start
    else
      var before := After(kind, rs[..|rs| - 1]);
      match rs[|rs| - 1]
      case Note(_) => before
      case Cmd(argv) => Run(kind, before, argv, |Print(rs)|)
  }

  lemma {:induction false} AfterBounds(kind: Argv -> Kind, rs: seq<Record>)
    ensures After(kind, rs).validUpTo <= |Print(rs)| && After(kind, rs).validBeforeMulti <= |Print(rs)|
  {
    hide PrintRecord;
    if rs != [] {
      AfterBounds(kind, rs[..|rs| - 1]);
      PrintSnoc(rs, |rs| - 1);
      assert rs[..|rs|] == rs;
    }
  }

  /** Where the loader is after the first i records, in a file that may go on. */
  ghost function Resumed(kind: Argv -> Kind, f: string, rs: seq<Record>, i: nat): Loaded
    requires i <= |rs| && |Print(rs[..i])| <= |f|
  {
    AfterBounds(kind, rs[..i]);
    LoadFrom(kind, f, |Print(rs[..i])|, After(kind, rs[..i]))
  }

  lemma LoadsRecord(kind: Argv -> Kind, f: string, rs: seq<Record>, i: nat)
    requires ValidRecords(rs) && i < |rs| && |Print(rs[..i + 1])| <= |f| && (rs[i].Cmd? ==> !kind(rs[i].argv).Unknown?)
    requires At(f, |Print(rs[..i])|, PrintRecord(rs[i]))
    ensures |Print(rs[..i])| <= |f| && Resumed(kind, f, rs, i) == Resumed(kind, f, rs, i + 1)
  {
    hide PrintRecord, ReadRecord, Run, Print, At, ValidRecord;
    PrintSnoc(rs, i);
    AfterBounds(kind, rs[..i]);
    AfterBounds(kind, rs[..i + 1]);
    RecordRead(f, |Print(rs[..i])|, rs[i]);
    assert rs[..i + 1][..i] == rs[..i] && rs[..i + 1][i] == rs[i];
  }

  /** Whole records are read one after the other. */
  lemma {:induction false} LoadsRecords(kind: Argv -> Kind, f: string, rs: seq<Record>, i: nat, n: nat)
    requires ValidRecords(rs) && i <= n <= |rs| && Known(kind, rs[..n])
    requires |Print(rs[..n])| <= |f| && f[..|Print(rs[..n])|] == Print(rs[..n])
    ensures |Print(rs[..i])| <= |f| && Resumed(kind, f, rs, i) == Resumed(kind, f, rs, n)
    decreases n - i
  {
    hide PrintRecord, Resumed, Print, ValidRecords, Known;
    if i < n {
      LoadsRecords(kind, f, rs, i + 1, n);
      RecordIsAt(f, rs, i, n);
      KnownAt(kind, rs, n, i);
      LoadsRecord(kind, f, rs, i);
    }
  }

  lemma KnownAt(kind: Argv -> Kind, rs: seq<Record>, n: nat, i: nat)
    requires i < n <= |rs| && Known(kind, rs[..n])
    ensures rs[i].Cmd? ==> !kind(rs[i].argv).Unknown?
  {
    assert rs[..n][i] == rs[i];
  }

  lemma KnownPrefix(kind: Argv -> Kind, rs: seq<Record>, n: nat)
    requires n <= |rs| && Known(kind, rs)
    ensures Known(kind, rs[..n])
  {
  }

  lemma RecordIsAt(f: string, rs: seq<Record>, i: nat, n: nat)
    requires i < n <= |rs| && |Print(rs[..n])| <= |f| && f[..|Print(rs[..n])|] == Print(rs[..n])
    ensures At(f, |Print(rs[..i])|, PrintRecord(rs[i]))
  {
    hide PrintRecord;
    assert rs[..n][..i + 1] == rs[..i + 1];
    PrintSplit(rs[..n], i + 1);
    PrintSnoc(rs, i);
    var a, b := |Print(rs[..i])|, |Print(rs[..i + 1])|;
    assert f[a..b] == f[..|Print(rs[..n])|][..b][a..];
    assert Print(rs[..n])[..b] == Print(rs[..i + 1]);
  }
}
