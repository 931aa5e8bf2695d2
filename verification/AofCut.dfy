/** The promise of aof-load-truncated: for every list of records and every byte at which the
    file may have been cut, what is executed, what is left on disk, and when the server can
    go on appending to it. */
module AofCut {
  import opened Text
  import opened Seqs
  import opened AofFormat
  import opened AofLoad
  import opened AofLoadProofs

  // ---------------------------------------------------------------- the loader at command level

  lemma CommandsSnoc(rs: seq<Record>, r: Record)
    ensures Commands(rs + [r]) == Commands(rs) + if r.Cmd? then [r.argv] else []
  {
    assert (rs + [r])[..|rs|] == rs;
    assert Commands(rs) + [] == Commands(rs);
  }

  /** What is queued: the data commands after the open MULTI. */
  function Queued(kind: Argv -> Kind, cs: seq<Argv>): seq<Argv> {
    match OpenMulti(kind, cs)
    case None => []
    case Some(i) => DataCommands(kind, cs[i + 1..])
  }

  lemma DataSnoc(kind: Argv -> Kind, cs: seq<Argv>, c: Argv)
    ensures DataCommands(kind, cs + [c]) == DataCommands(kind, cs) + if kind(c).Other? then [c] else []
  {
    assert (cs + [c])[..|cs|] == cs;
    assert DataCommands(kind, cs) + [] == DataCommands(kind, cs);
  }

  lemma {:induction false} DataConcat(kind: Argv -> Kind, a: seq<Argv>, b: seq<Argv>)
    ensures DataCommands(kind, a + b) == DataCommands(kind, a) + DataCommands(kind, b)
  {
    if b == [] {
      assert a + b == a;
    } else {
      var n := |b| - 1;
      assert (a + b)[..|a + b| - 1] == a + b[..n] && (a + b)[|a + b| - 1] == b[n];
      DataConcat(kind, a, b[..n]);
    }
  }

  lemma OpenSnoc(kind: Argv -> Kind, cs: seq<Argv>, c: Argv)
    ensures OpenMulti(kind, cs + [c]) ==
      match OpenMulti(kind, cs)
      case None => if kind(c).Multi? then Some(|cs|) else None
      case Some(i) => if kind(c).Exec? then None else Some(i)
  {
    assert (cs + [c])[..|cs|] == cs;
  }

  /** The loader's bookkeeping agrees with the meaning of the command list. */
  ghost predicate Agrees(kind: Argv -> Kind, l: Loader, cs: seq<Argv>) {
    && l.multi == OpenMulti(kind, cs).Some?
    && l.executed == Effective(kind, cs)
    && l.queue == Queued(kind, cs)
  }

  lemma RunAgrees(kind: Argv -> Kind, l: Loader, cs: seq<Argv>, c: Argv, next: nat)
    requires Agrees(kind, l, cs) && !kind(c).Unknown?
    ensures Agrees(kind, Run(kind, l, c, next), cs + [c])
  {
    if OpenMulti(kind, cs).None? {
      RunOutside(kind, l, cs, c, next);
    } else {
      RunInside(kind, l, cs, c, next);
    }
  }

  lemma RunOutside(kind: Argv -> Kind, l: Loader, cs: seq<Argv>, c: Argv, next: nat)
    requires Agrees(kind, l, cs) && !kind(c).Unknown? && OpenMulti(kind, cs).None?
    ensures Agrees(kind, Run(kind, l, c, next), cs + [c])
  {
    hide OpenMulti, DataCommands;
    OpenSnoc(kind, cs, c);
    DataSnoc(kind, cs, c);
    DataNone(kind);
    assert (cs + [c])[..|cs|] == cs;
    assert (cs + [c])[|cs| + 1..] == [];
    assert DataCommands(kind, cs) + [] == DataCommands(kind, cs);
  }

  lemma RunInside(kind: Argv -> Kind, l: Loader, cs: seq<Argv>, c: Argv, next: nat)
    requires Agrees(kind, l, cs) && !kind(c).Unknown? && OpenMulti(kind, cs).Some?
    ensures Agrees(kind, Run(kind, l, c, next), cs + [c])
  {
    OpenIsMulti(kind, cs);
    var i, now := OpenMulti(kind, cs).value, cs + [c];
    hide OpenMulti, DataCommands, Effective, Queued;
    OpenSnoc(kind, cs, c);
    Meaning(kind, cs);
    Meaning(kind, now);
    if kind(c).Exec? {
      DataSnoc(kind, cs, c);
      DataAcross(kind, cs, i);
      PlusNothing(DataCommands(kind, cs));
    } else {
      DataSnoc(kind, cs[i + 1..], c);
      Around(cs, c, i);
      PlusNothing(DataCommands(kind, cs[i + 1..]));
    }
  }

  lemma Around(cs: seq<Argv>, c: Argv, i: nat)
    requires i < |cs|
    ensures (cs + [c])[..i] == cs[..i] && (cs + [c])[i + 1..] == cs[i + 1..] + [c]
  {
  }

  lemma Meaning(kind: Argv -> Kind, cs: seq<Argv>)
    ensures OpenMulti(kind, cs).None? ==> Effective(kind, cs) == DataCommands(kind, cs) && Queued(kind, cs) == []
    ensures OpenMulti(kind, cs).Some? ==>
      && Effective(kind, cs) == DataCommands(kind, cs[..OpenMulti(kind, cs).value])
      && Queued(kind, cs) == DataCommands(kind, cs[OpenMulti(kind, cs).value + 1..])
  {
  }

  lemma DataNone(kind: Argv -> Kind)
    ensures DataCommands(kind, []) == []
  {
  }

  /** A MULTI is no data command: the data before and after it is all there is. */
  lemma DataAcross(kind: Argv -> Kind, cs: seq<Argv>, i: nat)
    requires i < |cs| && kind(cs[i]).Multi?
    ensures DataCommands(kind, cs) == DataCommands(kind, cs[..i]) + DataCommands(kind, cs[i + 1..])
  {
    hide DataCommands;
    assert cs == (cs[..i] + [cs[i]]) + cs[i + 1..];
    DataConcat(kind, cs[..i] + [cs[i]], cs[i + 1..]);
    DataSnoc(kind, cs[..i], cs[i]);
  }

  lemma {:induction false} OpenIsMulti(kind: Argv -> Kind, cs: seq<Argv>)
    ensures var o := OpenMulti(kind, cs); o.Some? ==> kind(cs[o.value]).Multi? && OpenMulti(kind, cs[..o.value]).None?
  {
    if cs != [] {
      var front := cs[..|cs| - 1];
      OpenIsMulti(kind, front);
      var o := OpenMulti(kind, front);
      if o.Some? {
        assert front[..o.value] == cs[..o.value];
      }
    }
  }

  lemma {:induction false} AfterAgrees(kind: Argv -> Kind, rs: seq<Record>)
    requires Known(kind, rs)
    ensures Agrees(kind, After(kind, rs), Commands(rs))
  {
    hide Run, Print;
    if rs != [] {
      var front, r := rs[..|rs| - 1], rs[|rs| - 1];
      AfterAgrees(kind, front);
      assert rs == front + [r];
      CommandsSnoc(front, r);
      match r
      case Note(_) => assert Commands(front) + [] == Commands(front);
      case Cmd(argv) => RunAgrees(kind, After(kind, front), Commands(front), argv, |Print(rs)|);
    }
  }

  // ---------------------------------------------------------------- the two offsets

  /** The records up to and including the last command. */
  function UpTo(rs: seq<Record>): (k: nat)
    ensures k <= |rs|
  {
    if rs == [] then 0
    else if rs[|rs| - 1].Cmd? then |rs|
    else UpTo(rs[..|rs| - 1])
  }

  /** The records before the last MULTI, up to a command. */
  function BeforeMulti(kind: Argv -> Kind, rs: seq<Record>): (k: nat)
    ensures k <= |rs|
  {
    if rs == [] then 0
    else if rs[|rs| - 1].Cmd? && kind(rs[|rs| - 1].argv).Multi? then UpTo(rs[..|rs| - 1])
    else BeforeMulti(kind, rs[..|rs| - 1])
  }

  lemma {:induction false} Offsets(kind: Argv -> Kind, rs: seq<Record>)
    ensures After(kind, rs).validUpTo == |Print(rs[..UpTo(rs)])|
    ensures After(kind, rs).validBeforeMulti == |Print(rs[..BeforeMulti(kind, rs)])|
  {
    hide PrintRecord;
    if rs == [] {
      assert rs[..0] == [];
    } else {
      var front := rs[..|rs| - 1];
      Offsets(kind, front);
      assert front[..UpTo(front)] == rs[..UpTo(front)];
      assert front[..BeforeMulti(kind, front)] == rs[..BeforeMulti(kind, front)];
      assert rs[..|rs|] == rs;
    }
  }

  lemma {:induction false} UpToCommands(rs: seq<Record>)
    ensures Commands(rs[..UpTo(rs)]) == Commands(rs)
  {
    if rs != [] {
      var front := rs[..|rs| - 1];
      if rs[|rs| - 1].Cmd? {
        assert rs[..|rs|] == rs;
      } else {
        UpToCommands(front);
        assert front[..UpTo(front)] == rs[..UpTo(front)];
      }
    }
  }

  /** The index of the last MULTI. */
  function LastMulti(kind: Argv -> Kind, cs: seq<Argv>): (r: Option<nat>)
    ensures r.Some? ==> r.value < |cs|
  {
    if cs == [] then None
    else if kind(cs[|cs| - 1]).Multi? then Some(|cs| - 1)
    else LastMulti(kind, cs[..|cs| - 1])
  }

  lemma {:induction false} BeforeMultiCommands(kind: Argv -> Kind, rs: seq<Record>)
    ensures Commands(rs[..BeforeMulti(kind, rs)]) ==
      match LastMulti(kind, Commands(rs))
      case None => []
      case Some(i) => Commands(rs)[..i]
  {
    if rs != [] {
      var front, r := rs[..|rs| - 1], rs[|rs| - 1];
      assert rs == front + [r];
      CommandsSnoc(front, r);
      BeforeMultiCommands(kind, front);
      var cs := Commands(front);
      if r.Cmd? {
        assert (cs + [r.argv])[..|cs|] == cs;
        if kind(r.argv).Multi? {
          UpToCommands(front);
          assert front[..UpTo(front)] == rs[..UpTo(front)];
        } else {
          assert front[..BeforeMulti(kind, front)] == rs[..BeforeMulti(kind, front)];
          var m := LastMulti(kind, cs);
          assert m.Some? ==> (cs + [r.argv])[..m.value] == cs[..m.value];
        }
      } else {
        assert cs + [] == cs;
        assert front[..BeforeMulti(kind, front)] == rs[..BeforeMulti(kind, front)];
      }
    }
  }

  /** The last MULTI is the open one, or a nested one after it. */
  lemma {:induction false} LastMultiAfterOpen(kind: Argv -> Kind, cs: seq<Argv>)
    requires OpenMulti(kind, cs).Some?
    ensures LastMulti(kind, cs).Some? && OpenMulti(kind, cs).value <= LastMulti(kind, cs).value
    ensures Effective(kind, cs[..LastMulti(kind, cs).value]) == Effective(kind, cs)
    ensures OpenMulti(kind, cs[..LastMulti(kind, cs).value]).Some?
      <==> OpenMulti(kind, cs).value < LastMulti(kind, cs).value
  {
    var front := cs[..|cs| - 1];
    var c := cs[|cs| - 1];
    var m := LastMulti(kind, cs);
    OpenIsMulti(kind, cs);
    if kind(c).Multi? {
      assert cs[..m.value] == front;
      if OpenMulti(kind, front).Some? {
        assert front[..OpenMulti(kind, front).value] == cs[..OpenMulti(kind, front).value];
      }
    } else {
      LastMultiAfterOpen(kind, front);
      assert front[..m.value] == cs[..m.value];
      assert front[..OpenMulti(kind, front).value] == cs[..OpenMulti(kind, front).value];
    }
  }

  // ---------------------------------------------------------------- the cut

  /** Whether the cut leaves part of a record behind the whole ones. */
  predicate Partial(rs: seq<Record>, c: nat) {
    |Print(rs[..Whole(rs, c)])| < c
  }

  lemma CutShape(rs: seq<Record>, c: nat)
    requires c <= |Print(rs)|
    ensures var f, n := Print(rs)[..c], Whole(rs, c);
      && |Print(rs[..n])| <= c && f[..|Print(rs[..n])|] == Print(rs[..n])
      && (Partial(rs, c) ==> n < |rs| && EndsInside(f, |Print(rs[..n])|, PrintRecord(rs[n])))
  {
    hide PrintRecord;
    var f, n := Print(rs)[..c], Whole(rs, c);
    WholeBounds(rs, c);
    PrintSplit(rs, n);
    if n == |rs| {
      assert rs[..n] == rs;
    } else {
      PrintSnoc(rs, n);
      PrintSplit(rs, n + 1);
      CutInside(Print(rs[..n]), PrintRecord(rs[n]), Print(rs[n + 1..]), c);
    }
  }

  lemma CutInside(a: string, r: string, b: string, c: nat)
    requires |a| <= c < |a| + |r|
    ensures (a + r + b)[..c][|a|..] == r[..c - |a|]
  {
  }

  /** What loading a file cut after c bytes is to yield. */
  function Expected(kind: Argv -> Kind, rs: seq<Record>, c: nat): Loaded
    requires c <= |Print(rs)|
  {
    var n := Whole(rs, c);
    var whole := rs[..n];
    var executed := Effective(kind, Commands(whole));
    if c == 0 then Loaded(AofEmpty, [], "")
    else if Partial(rs, c) && n < |rs| && rs[n].Cmd? then
      Loaded(AofTruncated, executed, Print(whole[..UpTo(whole)]))
    else if OpenMulti(kind, Commands(whole)).Some? then
      Loaded(AofTruncated, executed, Print(whole[..BeforeMulti(kind, whole)]))
    else Loaded(AofOk, executed, Print(rs)[..c])
  }

  lemma PrefixOfPrint(rs: seq<Record>, c: nat, k: nat)
    requires k <= |rs| && |Print(rs[..k])| <= c <= |Print(rs)|
    ensures Print(rs)[..c][..|Print(rs[..k])|] == Print(rs[..k])
  {
    PrintSplit(rs, k);
  }

  lemma {:induction false} PrintGrows(rs: seq<Record>, i: nat)
    requires i <= |rs|
    ensures |Print(rs[..i])| <= |Print(rs)|
  {
    PrintSplit(rs, i);
  }

  /** For every list of records and every cut: the loader executes exactly the commands wholly
      before the cut, except those inside a MULTI whose EXEC is not before the cut, and leaves
      the file it is documented to leave. */
  lemma LoadOfCutFile(kind: Argv -> Kind, rs: seq<Record>, c: nat)
    requires ValidRecords(rs) && Known(kind, rs) && c <= |Print(rs)|
    ensures Load(kind, Print(rs)[..c]) == Expected(kind, rs, c)
  {
    hide *;
    KnownPrefix(kind, rs, Whole(rs, c));
    LoadOfKnownPart(kind, rs, c);
  }

  /** It is enough that the commands wholly before the cut are known. */
  lemma LoadOfKnownPart(kind: Argv -> Kind, rs: seq<Record>, c: nat)
    requires ValidRecords(rs) && c <= |Print(rs)| && Known(kind, rs[..Whole(rs, c)])
    ensures Load(kind, Print(rs)[..c]) == Expected(kind, rs, c)
  {
    hide PrintRecord, Run, Print, Commands, Effective, OpenMulti, ValidRecords, ReadRecord, UpTo, BeforeMulti;
    var f, n := Print(rs)[..c], Whole(rs, c);
    if c > 0 {
      CutShape(rs, c);
      LoadsRecords(kind, f, rs, 0, n);
      assert rs[..0] == [] && |Print(rs[..0])| == 0 by { EmptyPrint(); }
      assert Load(kind, f) == Resumed(kind, f, rs, n);
      LoadsTail(kind, rs, c);
    }
  }

  lemma EmptyPrint()
    ensures Print([]) == ""
  {
  }

  /** After the whole records: the end of the file, or the part of a record. */
  lemma LoadsTail(kind: Argv -> Kind, rs: seq<Record>, c: nat)
    requires ValidRecords(rs) && 0 < c <= |Print(rs)| && Known(kind, rs[..Whole(rs, c)])
    ensures var n := Whole(rs, c);
      |Print(rs[..n])| <= c && Resumed(kind, Print(rs)[..c], rs, n) == Expected(kind, rs, c)
  {
    hide PrintRecord, Run, Print, Commands, Effective, OpenMulti, ReadRecord, UpTo, BeforeMulti, EndsInside;
    var f, n := Print(rs)[..c], Whole(rs, c);
    var whole, p := rs[..n], |Print(rs[..n])|;
    CutShape(rs, c);
    AfterAgrees(kind, whole);
    Offsets(kind, whole);
    AfterBounds(kind, whole);
    OffsetsArePrefixes(rs, c, n, UpTo(whole));
    OffsetsArePrefixes(rs, c, n, BeforeMulti(kind, whole));
    EndOfFile(f);
    if Partial(rs, c) {
      RecordCut(f, p, rs[n]);
      var l := After(kind, whole);
      if rs[n].Note? {
        assert LoadFrom(kind, f, p, l) == LoadFrom(kind, f, |f|, l);
      }
    }
  }

  lemma EndOfFile(f: string)
    ensures ReadRecord(f, |f|).End?
  {
  }

  lemma OffsetsArePrefixes(rs: seq<Record>, c: nat, n: nat, k: nat)
    requires k <= n <= |rs| && |Print(rs[..n])| <= c <= |Print(rs)|
    ensures |Print(rs[..n][..k])| <= c && Print(rs)[..c][..|Print(rs[..n][..k])|] == Print(rs[..n][..k])
  {
    hide Print;
    assert rs[..n][..k] == rs[..k];
    PrintGrows(rs[..n], k);
    PrefixOfPrint(rs, c, k);
  }

  // ---------------------------------------------------------------- unknown commands

  ghost predicate UnknownAt(kind: Argv -> Kind, rs: seq<Record>, i: nat) {
    i < |rs| && rs[i].Cmd? && kind(rs[i].argv).Unknown?
  }

  /** The first command that the server does not know, wholly before the cut, stops the load: what was
      before it outside an open MULTI has been executed, and the file is left as it is. */
  lemma LoadStopsAtUnknown(kind: Argv -> Kind, rs: seq<Record>, c: nat, i: nat)
    requires ValidRecords(rs) && c <= |Print(rs)| && i < Whole(rs, c) && UnknownAt(kind, rs, i)
    requires forall j :: 0 <= j < i ==> !UnknownAt(kind, rs, j)
    ensures Load(kind, Print(rs)[..c]) == Loaded(AofFailed, Effective(kind, Commands(rs[..i])), Print(rs)[..c])
  {
    hide PrintRecord, Run, Print, Commands, Effective, OpenMulti, ValidRecord, ReadRecord, Whole;
    var f, n := Print(rs)[..c], Whole(rs, c);
    CutShape(rs, c);
    PrefixOfPrefixPrint(f, rs, i, n);
    assert Known(kind, rs[..i]) by { KnownBefore(kind, rs, i); }
    LoadsRecords(kind, f, rs, 0, i);
    assert rs[..0] == [] && |Print(rs[..0])| == 0 by { EmptyPrint(); }
    RecordIsAt(f, rs, i, n);
    PrintSnoc(rs, i);
    PrintGrows(rs[..n], i + 1);
    assert rs[..n][..i + 1] == rs[..i + 1];
    RecordRead(f, |Print(rs[..i])|, rs[i]);
    assert f != "" by { assert |Print(rs[..i + 1])| <= |f|; PrintedIsNotEmpty(rs[..i + 1]); }
    assert Load(kind, f) == Resumed(kind, f, rs, i);
    AfterAgrees(kind, rs[..i]);
    AfterBounds(kind, rs[..i]);
  }

  lemma KnownBefore(kind: Argv -> Kind, rs: seq<Record>, i: nat)
    requires i <= |rs| && forall j :: 0 <= j < i ==> !UnknownAt(kind, rs, j)
    ensures Known(kind, rs[..i])
  {
    forall j | 0 <= j < i && rs[..i][j].Cmd? ensures !kind(rs[..i][j].argv).Unknown? {
      assert !UnknownAt(kind, rs, j);
    }
  }

  lemma PrefixOfPrefixPrint(f: string, rs: seq<Record>, i: nat, n: nat)
    requires i <= n <= |rs| && |Print(rs[..n])| <= |f| && f[..|Print(rs[..n])|] == Print(rs[..n])
    ensures |Print(rs[..i])| <= |f| && f[..|Print(rs[..i])|] == Print(rs[..i])
  {
    hide Print;
    assert rs[..n][..i] == rs[..i];
    PrintSplit(rs[..n], i);
    var a := |Print(rs[..i])|;
    assert f[..|Print(rs[..n])|][..a] == f[..a];
  }

  /** For every list of well-formed records and every cut: the load fails if and only if a command that
      the server does not know is wholly before the cut. */
  lemma LoadFailsIff(kind: Argv -> Kind, rs: seq<Record>, c: nat)
    requires ValidRecords(rs) && c <= |Print(rs)|
    ensures Load(kind, Print(rs)[..c]).status.AofFailed? <==> exists i :: 0 <= i < Whole(rs, c) && UnknownAt(kind, rs, i)
  {
    hide PrintRecord, Print, Commands, Effective, OpenMulti, ValidRecords, Load, Whole, UnknownAt;
    var n := Whole(rs, c);
    if exists i :: 0 <= i < n && UnknownAt(kind, rs, i) {
      var i := FirstUnknown(kind, rs, n);
      LoadStopsAtUnknown(kind, rs, c, i);
    } else {
      KnownBefore(kind, rs, n);
      LoadOfKnownPart(kind, rs, c);
    }
  }

  lemma FirstUnknown(kind: Argv -> Kind, rs: seq<Record>, n: nat) returns (i: nat)
    requires exists k :: 0 <= k < n && UnknownAt(kind, rs, k)
    ensures i < n && UnknownAt(kind, rs, i) && forall j :: 0 <= j < i ==> !UnknownAt(kind, rs, j)
  {
    hide UnknownAt;
    i := 0;
    while !UnknownAt(kind, rs, i)
      invariant i < n && (forall j :: 0 <= j < i ==> !UnknownAt(kind, rs, j))
      decreases n - i
    {
      i := i + 1;
    }
  }

  // ---------------------------------------------------------------- loading again

  lemma {:induction false} WholeOfAll(rs: seq<Record>)
    ensures Whole(rs, |Print(rs)|) == |rs|
  {
    hide PrintRecord;
    if rs != [] {
      WholeOfAll(rs[1..]);
    }
  }

  /** A file that ends with a whole record. */
  lemma LoadOfWholeFile(kind: Argv -> Kind, rs: seq<Record>)
    requires ValidRecords(rs) && Known(kind, rs)
    ensures Load(kind, Print(rs)).executed == Effective(kind, Commands(rs))
    ensures !Load(kind, Print(rs)).status.AofFailed?
  {
    hide PrintRecord, Commands, Effective, OpenMulti, ValidRecords, Load;
    LoadOfCutFile(kind, rs, |Print(rs)|);
    assert Print(rs)[..|Print(rs)|] == Print(rs);
    WholeOfAll(rs);
    assert rs[..|rs|] == rs;
    if |Print(rs)| == 0 && rs != [] {
      PrintedIsNotEmpty(rs);
    }
    assert Effective(kind, Commands([])) == [] by { NothingExecuted(kind); }
  }

  lemma PrintedIsNotEmpty(rs: seq<Record>)
    requires rs != []
    ensures Print(rs) != ""
  {
  }

  lemma NothingExecuted(kind: Argv -> Kind)
    ensures Effective(kind, Commands([])) == []
  {
  }

  /** The records whose text is the truncated file. */
  function Remaining(kind: Argv -> Kind, rs: seq<Record>, c: nat): seq<Record> {
    var n := Whole(rs, c);
    var whole := rs[..n];
    if Partial(rs, c) && n < |rs| && rs[n].Cmd? then whole[..UpTo(whole)]
    else if OpenMulti(kind, Commands(whole)).Some? then whole[..BeforeMulti(kind, whole)]
    else whole
  }

  lemma RemainingIsEffective(kind: Argv -> Kind, rs: seq<Record>, c: nat)
    ensures Effective(kind, Commands(Remaining(kind, rs, c))) == Effective(kind, Commands(rs[..Whole(rs, c)]))
  {
    hide PrintRecord, Print, Commands, Effective, OpenMulti;
    var whole := rs[..Whole(rs, c)];
    UpToCommands(whole);
    BeforeMultiCommands(kind, whole);
    if OpenMulti(kind, Commands(whole)).Some? {
      LastMultiAfterOpen(kind, Commands(whole));
    }
  }

  lemma PartsValid(kind: Argv -> Kind, rs: seq<Record>, c: nat)
    requires ValidRecords(rs) && Known(kind, rs)
    ensures ValidRecords(Remaining(kind, rs, c)) && Known(kind, Remaining(kind, rs, c))
  {
    hide ValidRecord, UpTo, BeforeMulti, OpenMulti, Commands, Partial;
    var n := Whole(rs, c);
    var whole := rs[..n];
    assert whole[..UpTo(whole)] == rs[..UpTo(whole)];
    assert whole[..BeforeMulti(kind, whole)] == rs[..BeforeMulti(kind, whole)];
    assert exists m :: 0 <= m <= |rs| && Remaining(kind, rs, c) == rs[..m];
  }

  /** Loading the file that a load left on disk executes the same commands again. */
  lemma ReloadIsTheSame(kind: Argv -> Kind, rs: seq<Record>, c: nat)
    requires ValidRecords(rs) && Known(kind, rs) && c <= |Print(rs)|
    ensures var first := Load(kind, Print(rs)[..c]);
      Load(kind, first.file).executed == first.executed
  {
    hide PrintRecord, Print, Commands, Effective, OpenMulti, ValidRecords, Load, Whole;
    LoadOfCutFile(kind, rs, c);
    var first := Load(kind, Print(rs)[..c]);
    if first.status.AofTruncated? {
      PartsValid(kind, rs, c);
      RemainingIsEffective(kind, rs, c);
      LoadOfWholeFile(kind, Remaining(kind, rs, c));
    } else if c == 0 {
      assert Print(rs)[..c] == "";
    }
  }
}
