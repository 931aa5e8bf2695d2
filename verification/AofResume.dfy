/** Appending to a file after loading it.  A server that loads a cut file goes on writing to
    what the load left; this is when those writes will be executed by the next load. */
module AofResume {
  import opened Text
  import opened AofFormat
  import opened AofLoad
  import opened AofLoadProofs
  import opened AofCut

  /** The file is left at a point where new commands can follow: not inside an annotation,
      and with no MULTI open.  A cut inside a command truncates after the last whole command,
      so a MULTI before it must be closed; otherwise the truncation is before the last MULTI,
      so it must not be nested in another. */
  predicate SafeToAppend(kind: Argv -> Kind, rs: seq<Record>, c: nat) {
    var n := Whole(rs, c);
    var cs := Commands(rs[..n]);
    if Partial(rs, c) && n < |rs| && rs[n].Cmd? then OpenMulti(kind, cs).None?
    else if OpenMulti(kind, cs).Some? then LastMulti(kind, cs) == OpenMulti(kind, cs)
    else !Partial(rs, c)
  }

  // ---------------------------------------------------------------- safe

  lemma {:induction false} EffectiveConcat(kind: Argv -> Kind, a: seq<Argv>, b: seq<Argv>)
    requires OpenMulti(kind, a).None?
    ensures Effective(kind, a + b) == Effective(kind, a) + Effective(kind, b)
    ensures OpenMulti(kind, a + b) ==
      match OpenMulti(kind, b)
      case None => None
      case Some(i) => Some(|a| + i)
  {
    OpenConcat(kind, a, b);
    match OpenMulti(kind, b)
    case None => DataConcat(kind, a, b);
    case Some(i) =>
      assert (a + b)[..|a| + i] == a + b[..i];
      DataConcat(kind, a, b[..i]);
  }

  lemma {:induction false} OpenConcat(kind: Argv -> Kind, a: seq<Argv>, b: seq<Argv>)
    requires OpenMulti(kind, a).None?
    ensures OpenMulti(kind, a + b) ==
      match OpenMulti(kind, b)
      case None => None
      case Some(i) => Some(|a| + i)
  {
    if b == [] {
      assert a + b == a;
    } else {
      var n := |b| - 1;
      assert (a + b)[..|a + b| - 1] == a + b[..n] && (a + b)[|a + b| - 1] == b[n];
      OpenConcat(kind, a, b[..n]);
    }
  }

  lemma {:induction false} CommandsConcat(a: seq<Record>, b: seq<Record>)
    ensures Commands(a + b) == Commands(a) + Commands(b)
  {
    if b == [] {
      assert a + b == a;
      assert Commands(a) + [] == Commands(a);
    } else {
      var n := |b| - 1;
      assert (a + b)[..|a + b| - 1] == a + b[..n] && (a + b)[|a + b| - 1] == b[n];
      CommandsConcat(a, b[..n]);
    }
  }

  /** What is left on disk, when no annotation is cut in two: the text of whole records. */
  lemma LeftOver(kind: Argv -> Kind, rs: seq<Record>, c: nat)
    requires ValidRecords(rs) && Known(kind, rs) && c <= |Print(rs)|
    requires Load(kind, Print(rs)[..c]).status.AofTruncated? || !Partial(rs, c)
    ensures Load(kind, Print(rs)[..c]).file == Print(Remaining(kind, rs, c))
    ensures Load(kind, Print(rs)[..c]).executed == Effective(kind, Commands(Remaining(kind, rs, c)))
  {
    hide PrintRecord, Print, Commands, Effective, OpenMulti, ValidRecords, Load, Whole;
    LoadOfCutFile(kind, rs, c);
    RemainingIsEffective(kind, rs, c);
    var n := Whole(rs, c);
    CutShape(rs, c);
    if c == 0 {
      NothingWhole(rs);
      NothingExecuted(kind);
      EmptyOpen(kind);
      assert rs[..n] == [];
      EmptyPrint();
    } else if !Partial(rs, c) {
      assert Print(rs)[..c] == Print(rs[..n]);
    }
  }

  lemma NothingWhole(rs: seq<Record>)
    ensures Whole(rs, 0) == 0
  {
    if rs != [] {
      PrintedIsNotEmpty([rs[0]]);
      assert [rs[0]][1..] == [];
    }
  }

  lemma EmptyOpen(kind: Argv -> Kind)
    ensures OpenMulti(kind, Commands([])).None?
  {
  }

  /** Whether the remaining records leave a MULTI open is what SafeToAppend asks. */
  lemma RemainingOpen(kind: Argv -> Kind, rs: seq<Record>, c: nat)
    ensures var n := Whole(rs, c); var cs := Commands(rs[..n]);
      OpenMulti(kind, Commands(Remaining(kind, rs, c))).None? <==>
        if Partial(rs, c) && n < |rs| && rs[n].Cmd? then OpenMulti(kind, cs).None?
        else OpenMulti(kind, cs).Some? ==> LastMulti(kind, cs) == OpenMulti(kind, cs)
  {
    hide PrintRecord, Print, Commands, OpenMulti, Effective, LastMulti;
    var whole := rs[..Whole(rs, c)];
    UpToCommands(whole);
    BeforeMultiCommands(kind, whole);
    if OpenMulti(kind, Commands(whole)).Some? {
      LastMultiAfterOpen(kind, Commands(whole));
    }
  }

  /** After a safe cut, whatever is appended is executed by the next load, after exactly what
      this load executed. */
  lemma AppendedIsExecuted(kind: Argv -> Kind, rs: seq<Record>, c: nat, more: seq<Record>)
    requires ValidRecords(rs) && Known(kind, rs) && c <= |Print(rs)| && SafeToAppend(kind, rs, c)
    requires ValidRecords(more) && Known(kind, more)
    ensures var first := Load(kind, Print(rs)[..c]);
      Load(kind, first.file + Print(more)).executed == first.executed + Effective(kind, Commands(more))
  {
    hide PrintRecord, Print, Commands, OpenMulti, ValidRecords, Load, Whole, Effective, LastMulti, Remaining;
    var kept := Remaining(kind, rs, c);
    RemainingOpen(kind, rs, c);
    assert Load(kind, Print(rs)[..c]).status.AofTruncated? || !Partial(rs, c) by { LoadOfCutFile(kind, rs, c); CutShape(rs, c); }
    LeftOver(kind, rs, c);
    PartsValid(kind, rs, c);
    PrintConcat(kept, more);
    ConcatValid(kind, kept, more);
    LoadOfWholeFile(kind, kept + more);
    CommandsConcat(kept, more);
    EffectiveConcat(kind, Commands(kept), Commands(more));
  }

  lemma ConcatValid(kind: Argv -> Kind, a: seq<Record>, b: seq<Record>)
    requires ValidRecords(a) && ValidRecords(b) && Known(kind, a) && Known(kind, b)
    ensures ValidRecords(a + b) && Known(kind, a + b)
  {
    hide ValidRecord;
  }

  // ---------------------------------------------------------------- not safe

  function Cmds(xs: seq<Argv>): seq<Record> {
    if xs == [] then [] else Cmds(xs[..|xs| - 1]) + [Cmd(xs[|xs| - 1])]
  }

  ghost predicate DataOnly(kind: Argv -> Kind, xs: seq<Argv>) {
    forall i :: 0 <= i < |xs| ==> ValidRecord(Cmd(xs[i])) && kind(xs[i]).Other?
  }

  lemma {:induction false} CmdsAre(kind: Argv -> Kind, xs: seq<Argv>)
    requires DataOnly(kind, xs)
    ensures ValidRecords(Cmds(xs)) && Known(kind, Cmds(xs)) && Commands(Cmds(xs)) == xs
  {
    hide ValidRecord;
    if xs != [] {
      CmdsAre(kind, xs[..|xs| - 1]);
      CommandsSnoc(Cmds(xs[..|xs| - 1]), Cmd(xs[|xs| - 1]));
      assert xs == xs[..|xs| - 1] + [xs[|xs| - 1]];
    }
  }

  lemma {:induction false} CmdsConcat(a: seq<Argv>, b: seq<Argv>)
    ensures Cmds(a + b) == Cmds(a) + Cmds(b)
  {
    if b == [] {
      assert a + b == a;
    } else {
      var n := |b| - 1;
      assert (a + b)[..|a + b| - 1] == a + b[..n] && (a + b)[|a + b| - 1] == b[n];
      CmdsConcat(a, b[..n]);
    }
  }

  /** After any other cut, the commands appended next are not executed by the next load. */
  lemma AppendedIsLost(kind: Argv -> Kind, rs: seq<Record>, c: nat, xs: seq<Argv>)
    requires ValidRecords(rs) && Known(kind, rs) && c <= |Print(rs)| && !SafeToAppend(kind, rs, c)
    requires xs != [] && DataOnly(kind, xs)
    ensures var first := Load(kind, Print(rs)[..c]);
      Load(kind, first.file + Print(Cmds(xs))).executed == first.executed
  {
    hide PrintRecord, Print, Commands, OpenMulti, ValidRecord, Load, Whole, Effective, LastMulti, Remaining, Cmds;
    var kept, more := Remaining(kind, rs, c), Cmds(xs);
    RemainingOpen(kind, rs, c);
    LoadOfCutFile(kind, rs, c);
    CutShape(rs, c);
    if Load(kind, Print(rs)[..c]).status.AofTruncated? || !Partial(rs, c) {
      LeftOver(kind, rs, c);
      PartsValid(kind, rs, c);
      CmdsAre(kind, xs);
      PrintConcat(kept, more);
      ConcatValid(kind, kept, more);
      LoadOfWholeFile(kind, kept + more);
      CommandsConcat(kept, more);
      QueuedIsNotEffective(kind, Commands(kept), xs);
    } else {
      FirstPrinted(xs);
      AnnotationSwallows(kind, rs, c, xs[0], Print(Cmds(xs[1..])));
      assert Print(rs)[..c] + (Print([Cmd(xs[0])]) + Print(Cmds(xs[1..]))) == Print(rs)[..c] + Print([Cmd(xs[0])]) + Print(Cmds(xs[1..]));
    }
  }

  lemma FirstPrinted(xs: seq<Argv>)
    requires xs != []
    ensures Print(Cmds(xs)) == Print([Cmd(xs[0])]) + Print(Cmds(xs[1..]))
  {
    hide Print;
    assert xs == [xs[0]] + xs[1..];
    CmdsConcat([xs[0]], xs[1..]);
    assert [xs[0]][..0] == [] && Cmds([xs[0]]) == [Cmd(xs[0])];
    PrintConcat([Cmd(xs[0])], Cmds(xs[1..]));
  }

  lemma OnlyCommand(x: Argv)
    ensures Commands([Cmd(x)]) == [x]
  {
    assert [Cmd(x)][..0] == [];
    assert Commands([]) == [];
  }

  lemma {:induction false} QueuedIsNotEffective(kind: Argv -> Kind, cs: seq<Argv>, xs: seq<Argv>)
    requires OpenMulti(kind, cs).Some? && forall i :: 0 <= i < |xs| ==> kind(xs[i]).Other?
    ensures Effective(kind, cs + xs) == Effective(kind, cs) && OpenMulti(kind, cs + xs) == OpenMulti(kind, cs)
  {
    if xs == [] {
      assert cs + xs == cs;
    } else {
      var n := |xs| - 1;
      QueuedIsNotEffective(kind, cs, xs[..n]);
      assert cs + xs == cs + xs[..n] + [xs[n]];
      OpenSnoc(kind, cs + xs[..n], xs[n]);
      var i := OpenMulti(kind, cs).value;
      assert (cs + xs)[..i] == (cs + xs[..n])[..i];
    }
  }

  /** The rest of a cut annotation swallows the first line of the command after it, and what
      follows is no record. */
  lemma AnnotationSwallows(kind: Argv -> Kind, rs: seq<Record>, c: nat, x: Argv, tail: string)
    requires ValidRecords(rs) && Known(kind, rs) && 0 < c <= |Print(rs)|
    requires var n := Whole(rs, c);
      Partial(rs, c) && n < |rs| && rs[n].Note? && OpenMulti(kind, Commands(rs[..n])).None?
    requires ValidRecord(Cmd(x)) && kind(x).Other?
    ensures var f := Print(rs)[..c];
      Load(kind, f + Print([Cmd(x)]) + tail).executed == Effective(kind, Commands(rs[..Whole(rs, c)]))
  {
    hide PrintRecord, Print, Commands, OpenMulti, Whole, Effective, Run, ReadRecord;
    var n := Whole(rs, c);
    var f, g := Print(rs)[..c], Print(rs)[..c] + Print([Cmd(x)]) + tail;
    var p := |Print(rs[..n])|;
    CutShape(rs, c);
    assert g[..p] == f[..p];
    KnownPrefix(kind, rs, n);
    LoadsRecords(kind, g, rs, 0, n);
    EmptyPrint();
    assert rs[..0] == [];
    assert Load(kind, g) == Resumed(kind, g, rs, n);
    AfterAgrees(kind, rs[..n]);
    AfterBounds(kind, rs[..n]);
    SwallowedLine(f, p, rs[n], x, tail);
    var l := After(kind, rs[..n]);
    assert LoadFrom(kind, g, p, l) == LoadFrom(kind, g, ReadRecord(g, p).next, l);
  }

  /** The cut annotation and the first line of what follows are one line. */
  lemma GluedLine(f: string, p: nat, text: string, h: string, rest: string)
    requires '\n' !in text && EndsInside(f, p, text + CRLF) && p < |f|
    requires h != "" && h[|h| - 1] == '\n' && forall k :: 0 <= k < |h| - 1 ==> h[k] != '\n'
    ensures var g, whole := f + (h + rest), |f| + |h|;
      g[whole - 1] == '\n' && forall k :: p <= k < whole - 1 ==> g[k] != '\n'
  {
    var g, s := f + (h + rest), text + CRLF;
    forall k | p <= k < |f| + |h| - 1 ensures g[k] != '\n' {
      if k < |f| {
        assert g[k] == f[p..][k - p] == s[k - p] && k - p < |s| - 1;
      } else {
        assert g[k] == h[k - |f|];
      }
    }
    assert g[|f| + |h| - 1] == h[|h| - 1];
  }

  lemma SwallowedLine(f: string, p: nat, r: Record, x: Argv, tail: string)
    requires ValidRecord(r) && r.Note? && EndsInside(f, p, PrintRecord(r)) && p < |f|
    requires ValidRecord(Cmd(x))
    ensures var g := f + Print([Cmd(x)]) + tail;
      ReadRecord(g, p).Annotation? && ReadRecord(g, ReadRecord(g, p).next).FormatError?
  {
    hide LineEnd, Header, ParseNum, Print, PrintArgs, ReadRecord, ReadArgs;
    var h, rest := Header('*', |x|), PrintArgs(x) + tail;
    var g := f + (h + rest);
    PrintOne(x);
    GluedText(f, h, PrintArgs(x), tail);
    HeaderHasOneNewline('*', |x|);
    HeaderIsShort('*', |x|);
    GluedLine(f, p, r.text, h, rest);
    assert g[p] == f[p..][0] == '#';
    LineStops(g, p, LINE_MAX - 1, |f| + |h|);
    AnnotationRead(g, p);
    AfterHeaderStart(g, |f|, x, tail, FGets(g, p));
    NoRecordHere(g, FGets(g, p));
  }

  lemma GluedText(f: string, h: string, args: string, tail: string)
    ensures f + (h + (args + tail)) == f + (h + args) + tail
    ensures (f + (h + (args + tail)))[|f|..] == h + args + tail
  {
  }

  lemma AnnotationRead(g: string, p: nat)
    requires p < |g| && g[p] == '#'
    ensures ReadRecord(g, p) == Annotation(FGets(g, p))
  {
    hide FGets, ParseNum, ReadArgs;
  }

  lemma NoRecordHere(g: string, p: nat)
    requires p < |g| && g[p] != '#' && g[p] != '*'
    ensures ReadRecord(g, p) == FormatError
  {
    hide FGets, ParseNum, ReadArgs;
  }

  lemma PrintOne(x: Argv)
    ensures Print([Cmd(x)]) == Header('*', |x|) + PrintArgs(x)
  {
    hide Header, PrintArgs;
    assert [Cmd(x)][1..] == [];
    assert Header('*', |x|) + PrintArgs(x) + "" == Header('*', |x|) + PrintArgs(x);
  }

  /** fgets stops at the newline, or where the buffer is full. */
  lemma {:induction false} LineStops(f: string, p: nat, room: nat, q: nat)
    requires p < q <= |f| && f[q - 1] == '\n' && forall k :: p <= k < q - 1 ==> f[k] != '\n'
    ensures LineEnd(f, p, room) == if q - p <= room then q else p + room
    decreases room
  {
    if room > 0 && p + 1 < q {
      LineStops(f, p + 1, room - 1, q);
    } else if room > 0 {
      assert f[p] == '\n';
    }
  }

  /** Past the first byte of a command there is no '#' or '*' up to its first argument. */
  lemma AfterHeaderStart(g: string, at: nat, x: Argv, tail: string, q: nat)
    requires x != [] && at < q <= at + |Header('*', |x|)|
    requires at <= |g| && g[at..] == Header('*', |x|) + PrintArgs(x) + tail
    ensures q < |g| && g[q] != '#' && g[q] != '*'
  {
    hide Header, PrintArgs;
    var h, i := Header('*', |x|), q - at;
    HeaderHasOneNewline('*', |x|);
    PrintArgsSplit(x);
    HeaderHasOneNewline('$', |x[0]|);
    assert g[q] == g[at..][i] == (h + PrintArgs(x))[i];
    if i < |h| {
      HeaderChars('*', |x|, i);
    } else {
      assert (h + PrintArgs(x))[i] == PrintArgs(x)[0] == Header('$', |x[0]|)[0];
    }
  }

  lemma HeaderChars(mark: char, n: nat, i: nat)
    requires 0 < i < |Header(mark, n)|
    ensures var c := Header(mark, n)[i]; IsDigit(c) || c == '\r' || c == '\n'
  {
    if i <= |Dec(n)| {
      assert Header(mark, n)[i] == Dec(n)[i - 1];
    }
  }

  /** The server may append after a load exactly when the cut was safe. */
  lemma ResumeIff(kind: Argv -> Kind, rs: seq<Record>, c: nat, x: Argv)
    requires ValidRecords(rs) && Known(kind, rs) && c <= |Print(rs)|
    requires ValidRecord(Cmd(x)) && kind(x).Other?
    ensures var first := Load(kind, Print(rs)[..c]);
      Load(kind, first.file + Print([Cmd(x)])).executed == first.executed + [x] <==> SafeToAppend(kind, rs, c)
  {
    hide PrintRecord, Print, OpenMulti, ValidRecord, Load, SafeToAppend;
    if SafeToAppend(kind, rs, c) {
      AppendedIsExecuted(kind, rs, c, [Cmd(x)]);
      OnlyCommand(x);
      OneEffective(kind, x);
    } else {
      assert [x][..0] == [] && Cmds([x]) == [Cmd(x)];
      AppendedIsLost(kind, rs, c, [x]);
      var first := Load(kind, Print(rs)[..c]);
      assert |first.executed + [x]| == |first.executed| + 1;
    }
  }

  lemma OneEffective(kind: Argv -> Kind, x: Argv)
    requires kind(x).Other?
    ensures Effective(kind, [x]) == [x]
  {
    assert [x][..0] == [];
    assert OpenMulti(kind, []) == None && DataCommands(kind, []) == [];
  }
}
