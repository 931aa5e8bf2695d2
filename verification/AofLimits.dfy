/** Each condition under which the append-only files are safe is needed: what happens without it. */
module AofLimits {
  import opened Text
  import opened Seqs
  import opened AofFormat
  import AofLoad
  import AofLoadProofs
  import AofCut
  import AofResume
  import AofFlush
  import opened AofStream
  import opened AofFeed
  import opened AofRewrite
  import opened AofRewriteProofs

  // ---------------------------------------------------------------- files that cannot be loaded

  lemma {:induction false} FailedAmong(kind: Kinds, files: Files, names: seq<FileName>, name: FileName)
    requires name in names && (name in files ==> ReadLast(kind, files[name]).None?)
    ensures ReadAll(kind, files, names).None?
  {
    assert name in files ==> Read(kind, files[name]).None?;
    hide Read, ReadLast;
    if names[0] != name {
      FailedAmong(kind, files, names[1..], name);
    }
  }

  /** A listed file that is missing or has a format error is fatal. */
  lemma FailedIsFatal(kind: Kinds, files: Files, names: seq<FileName>, name: FileName)
    requires name in names && (name in files ==> ReadLast(kind, files[name]).None?)
    ensures LoadFiles(kind, files, names).None?
  {
    hide Read, ReadLast, ReadAll;
    var n := |names| - 1;
    if names[n] != name {
      assert name in names[..n];
      FailedAmong(kind, files, names[..n], name);
    }
  }

  /** What a log holds: the first bytes of some records. */
  datatype Source = Source(records: seq<Record>, bytes: nat)

  ghost predicate Holds(d: Data, src: Source) {
    d.Log? ==> ValidRecords(src.records) && src.bytes <= |Print(src.records)| && d.text == Print(src.records)[..src.bytes]
  }

  /** The log holds a whole command that the server does not know. */
  ghost predicate HasUnknown(kind: Kinds, src: Source) {
    exists i :: 0 <= i < AofLoadProofs.Whole(src.records, src.bytes) && AofCut.UnknownAt(kind, src.records, i)
  }

  lemma ReadsIff(kind: Kinds, d: Data, src: Source)
    requires Holds(d, src)
    ensures ReadLast(kind, d).Some? <==> (d.Log? ==> !HasUnknown(kind, src))
    ensures Read(kind, d).Some? <==> (d.Log? ==> !HasUnknown(kind, src) && Settles(kind, src.records, src.bytes))
  {
    hide Print, AofLoad.Load, Settles, ValidRecords, AofCut.UnknownAt, AofLoadProofs.Whole;
    if d.Log? {
      AofCut.LoadFailsIff(kind, src.records, src.bytes);
      if !HasUnknown(kind, src) {
        AofCut.KnownBefore(kind, src.records, AofLoadProofs.Whole(src.records, src.bytes));
        LoadOfKnownStream(kind, src.records, src.bytes);
      }
    }
  }

  lemma {:induction false} AllReadIff(kind: Kinds, files: Files, names: seq<FileName>)
    ensures ReadAll(kind, files, names).Some? <==>
      forall i :: 0 <= i < |names| ==> names[i] in files && Read(kind, files[names[i]]).Some?
  {
    hide Read;
    if names != [] {
      AllReadIff(kind, files, names[1..]);
      assert forall i :: 1 <= i < |names| ==> names[i] == names[1..][i - 1];
    }
  }

  lemma FilesLoadIff(kind: Kinds, files: Files, names: seq<FileName>)
    requires names != []
    ensures LoadFiles(kind, files, names).Some? <==>
      && (forall i :: 0 <= i < |names| ==> names[i] in files)
      && (forall i :: 0 <= i < |names| - 1 ==> Read(kind, files[names[i]]).Some?)
      && ReadLast(kind, files[names[|names| - 1]]).Some?
  {
    hide Read, ReadLast, ReadAll;
    var n := |names| - 1;
    AllReadIff(kind, files, names[..n]);
    assert forall i :: 0 <= i < n ==> names[..n][i] == names[i];
  }

  /** The files of a manifest load if and only if none is missing, none holds a whole command that the
      server does not know, and all but the last end with whole commands and closed transactions. */
  lemma LoadsIff(kind: Kinds, files: Files, names: seq<FileName>, sources: map<FileName, Source>)
    requires names != []
    requires forall f :: f in files ==> f in sources && Holds(files[f], sources[f])
    ensures LoadFiles(kind, files, names).Some? <==>
      && (forall i :: 0 <= i < |names| ==> names[i] in files)
      && (forall i :: 0 <= i < |names| && files[names[i]].Log? ==> !HasUnknown(kind, sources[names[i]]))
      && (forall i :: 0 <= i < |names| - 1 && files[names[i]].Log? ==>
            Settles(kind, sources[names[i]].records, sources[names[i]].bytes))
  {
    hide Read, ReadLast, LoadFiles, HasUnknown, Settles, Holds;
    FilesLoadIff(kind, files, names);
    forall i | 0 <= i < |names| && names[i] in files
      ensures var d, src := files[names[i]], sources[names[i]];
        && (ReadLast(kind, d).Some? <==> (d.Log? ==> !HasUnknown(kind, src)))
        && (Read(kind, d).Some? <==> (d.Log? ==> !HasUnknown(kind, src) && Settles(kind, src.records, src.bytes)))
    {
      ReadsIff(kind, files[names[i]], sources[names[i]]);
    }
  }

  lemma OpenIsListed(kind: Kinds, s: State)
    requires Core(kind, s)
    ensures s.fd in LoadList(s.listing)
  {
    OpenFileIsLast(s.manifest.listing);
    hide Print, All, Good, ReadAll, Read, Settles, Settled, Stream, Content;
    if Stray(kind, s) {
      var m := s.manifest.listing;
      assert s.listing.incr[|m.incr| - 1] == s.fd;
    }
  }

  // ---------------------------------------------------------------- writing behind the end

  lemma BoundaryText(rs: seq<Record>, c: nat)
    requires c <= |Print(rs)| && !AofCut.Partial(rs, c)
    ensures Print(rs)[..c] == Print(rs[..AofLoadProofs.Whole(rs, c)])
  {
    hide Print, AofLoadProofs.Whole;
    AofCut.CutShape(rs, c);
  }

  /** A write behind the end of the file leaves zero bytes. */
  lemma HoleText(f: AofFlush.File, data: string)
    requires |f.content| < f.pos && !f.append && data != ""
    ensures exists rest :: rest != "" && rest[0] == NUL && AofFlush.WriteTo(f, data).content == f.content + rest
  {
    var rest := AofFlush.Zeros(f.pos - |f.content|) + data;
    assert AofFlush.WriteTo(f, data).content == f.content + rest;
  }

  /** A write that does not start at the end of the file leaves a hole, and nothing can be loaded. */
  lemma HoleIsFatal(kind: Kinds, s: State, k: nat)
    requires Inv(kind, s) && !AofCut.Partial(s.fed, |Content(s)|)
    requires !AofFlush.AtEnd(OpenLog(s).file) && 0 < k <= |s.buf|
    ensures Recovered(kind, Wrote(s, k)).None?
  {
    OpenIsListed(kind, s);
    BoundaryText(s.fed, |Content(s)|);
    HoleText(OpenLog(s).file, s.buf[..k]);
    hide Print, All, ReadAll, Read, Settles, Settled, Listed, InMemory, AofLoadProofs.Whole, AofLoad.Load, AofFlush.WriteTo, LoadList, LoadFiles;
    var text := AofFlush.WriteTo(OpenLog(s).file, s.buf[..k]).content;
    var rest :| rest != "" && rest[0] == NUL && text == Content(s) + rest;
    GarbageIsFormatError(kind, s.fed, AofLoadProofs.Whole(s.fed, |Content(s)|), rest);
    assert ReadLast(kind, Log(text)).None?;
    FatalText(kind, s, Wrote(s, k), text);
  }

  lemma FatalText(kind: Kinds, s: State, s': State, text: string)
    requires s.fd in LoadList(s.listing) && s'.listing == s.listing && s'.files == s.files[s.fd := Log(text)]
    requires ReadLast(kind, Log(text)).None?
    ensures Recovered(kind, s').None?
  {
    hide ReadLast, LoadList, LoadFiles;
    FailedIsFatal(kind, s'.files, LoadList(s.listing), s.fd);
  }

  lemma OnlyStrayIsBehind(kind: Kinds, s: State)
    requires Core(kind, s)
    ensures s.listing.incr != [] && (Last(s.listing) != s.fd ==> Stray(kind, s))
  {
    hide Print, All, Good, ReadAll, Read, Settles, Settled, Stream, Content;
  }

  lemma StrayParts(kind: Kinds, s: State)
    requires Stray(kind, s)
    ensures var name := Incr(s.manifest.incrSeq + 1);
      && s.listing.base == s.manifest.listing.base && s.listing.incr == s.manifest.listing.incr + [name]
      && name in s.files && s.files[name] == Log("")
  {
  }

  /** Behind a stray file every write(2) must end where the file can be loaded. */
  lemma UnsettledMarkIsFatal(kind: Kinds, s: State, k: nat)
    requires Inv(kind, s) && Stray(kind, s) && k <= |s.buf| && (AofFlush.AtEnd(OpenLog(s).file) || k == 0)
    requires !Settles(kind, s.fed, |Content(s)| + k)
    ensures Recovered(kind, Wrote(s, k)).None?
  {
    hide *;
    InvParts(kind, s);
    StrayParts(kind, s);
    NewIsNotOpen(kind, s);
    WroteStream(kind, s, k);
    LoadableIffSettles(kind, Wrote(s, k));
  }

  lemma MarkState(s: State, o: FlushOutcome, i: nat)
    requires i < |AofFlush.Marks(o.answers, 0, |s.buf|)|
    ensures i < |FlushStates(s, o)| && FlushStates(s, o)[i] == Wrote(s, AofFlush.Marks(o.answers, 0, |s.buf|)[i])
  {
    hide Wrote, Flush, AofFlush.Marks;
  }

  /** How a flush can be unsound. */
  lemma UnsoundMark(kind: Kinds, s: State, o: FlushOutcome) returns (i: nat)
    requires !SoundFlush(kind, s, o)
    ensures var marks := AofFlush.Marks(o.answers, 0, |s.buf|);
      && i < |marks|
      && if !AofFlush.AtEnd(OpenLog(s).file) && marks[i] > 0 then true
         else && s.listing.incr != [] && Last(s.listing) != s.fd && !Settles(kind, s.fed, |Content(s)| + marks[i])
              && (AofFlush.AtEnd(OpenLog(s).file) || marks[i] == 0)
  {
    hide AofFlush.Marks, AofFlush.Total, AofFlush.AtEnd, Settles, Content, OpenLog;
    var marks, t := AofFlush.Marks(o.answers, 0, |s.buf|), AofFlush.Total(o.answers, |s.buf|);
    AofFlush.MarksTotal(o.answers, 0, |s.buf|);
    if !AofFlush.AtEnd(OpenLog(s).file) && t > 0 {
      i := |marks| - 1;
    } else {
      i :| 0 <= i < |marks| && !Settles(kind, s.fed, |Content(s)| + marks[i]);
    }
  }

  /** An unsound flush has a write(2) after which nothing can be loaded. */
  lemma UnsoundFlush(kind: Kinds, s: State, o: FlushOutcome) returns (i: nat)
    requires Inv(kind, s) && (AofFlush.AtEnd(OpenLog(s).file) || !AofCut.Partial(s.fed, |Content(s)|)) && !SoundFlush(kind, s, o)
    ensures i < |FlushStates(s, o)| && Recovered(kind, FlushStates(s, o)[i]).None?
  {
    hide *;
    i := UnsoundMark(kind, s, o);
    var k := AofFlush.Marks(o.answers, 0, |s.buf|)[i];
    MarkState(s, o, i);
    if !AofFlush.AtEnd(OpenLog(s).file) && k > 0 {
      HoleIsFatal(kind, s, k);
    } else {
      InvParts(kind, s);
      OnlyStrayIsBehind(kind, s);
      UnsettledMarkIsFatal(kind, s, k);
    }
  }

  /** A flush, but for one that leaves a hole inside a record, is exact at every write(2) if and only if
      it is sound. */
  lemma FlushIsSafeIff(kind: Kinds, s: State, o: FlushOutcome)
    requires Inv(kind, s) && (AofFlush.AtEnd(OpenLog(s).file) || !AofCut.Partial(s.fed, |Content(s)|))
    ensures (forall i :: 0 <= i < |FlushStates(s, o)| ==> Exact(kind, FlushStates(s, o)[i])) <==> SoundFlush(kind, s, o)
  {
    hide *;
    if SoundFlush(kind, s, o) {
      FlushStatesSafe(kind, s, o);
      forall i | 0 <= i < |FlushStates(s, o)| ensures Exact(kind, FlushStates(s, o)[i]) {
        SafeIsExact(kind, FlushStates(s, o)[i]);
      }
    } else {
      var i := UnsoundFlush(kind, s, o);
      NotExact(kind, FlushStates(s, o)[i]);
    }
  }

  lemma NotExact(kind: Kinds, s: State)
    requires Recovered(kind, s).None?
    ensures !Exact(kind, s)
  {
  }

  // ---------------------------------------------------------------- a start that fails

  /** The disk after a start, successful or not. */
  function AfterStart(kind: Kinds, s: State): State {
    s.(files := LoadDisk(kind, s.files, LoadList(s.listing)))
  }

  lemma {:induction false} AllPresent(kind: Kinds, files: Files, names: seq<FileName>)
    requires ReadAll(kind, files, names).Some?
    ensures forall i :: 0 <= i < |names| ==> names[i] in files && Read(kind, files[names[i]]).Some?
  {
    hide Read;
    if names != [] { AllPresent(kind, files, names[1..]); }
  }

  lemma {:induction false} ReadUpTo(kind: Kinds, files: Files, a: seq<FileName>, bad: FileName, b: seq<FileName>)
    requires ReadAll(kind, files, a).Some? && bad in files && Read(kind, files[bad]).None?
    ensures FilesRead(kind, files, a + [bad] + b) == |a| + 1
  {
    hide Read;
    var all := a + [bad] + b;
    if a == [] {
      assert all[0] == bad;
    } else {
      assert all[0] == a[0] && all[1..] == a[1..] + [bad] + b;
      ReadUpTo(kind, files, a[1..], bad, b);
    }
  }

  /** A file that is not truncated is left as it is. */
  lemma ReadLeaves(kind: Kinds, d: Data)
    requires Read(kind, d).Some?
    ensures LeftOf(kind, d) == d
  {
    if d.Log? { LoadedLeaves(kind, d.text, 0, AofLoad.Start); }
  }

  lemma {:induction false} LoadedLeaves(kind: Kinds, f: string, p: nat, l: AofLoad.Loader)
    requires p <= |f| && l.validUpTo <= |f| && l.validBeforeMulti <= |f|
    ensures var r := AofLoad.LoadFrom(kind, f, p, l); r.status.AofOk? || r.status.AofEmpty? ==> r.file == f
    decreases |f| - p
  {
    hide AofLoad.ReadRecord;
    match AofLoad.ReadRecord(f, p)
    case Annotation(next) => LoadedLeaves(kind, f, next, l);
    case Command(argv, next) =>
      if !kind(argv).Unknown? {
        LoadedLeaves(kind, f, next, AofLoad.Run(kind, l, argv, next));
      }
    case _ =>
  }

  /** The disk after a start that fails at the file `bad`: only that one is cut. */
  lemma FailedStartDisk(kind: Kinds, files: Files, a: seq<FileName>, bad: FileName, last: FileName)
    requires ReadAll(kind, files, a).Some? && bad in files && Read(kind, files[bad]).None? && last in files
    requires last != bad && bad !in a && last !in a
    ensures LoadDisk(kind, files, a + [bad] + [last]) == files[bad := LeftOf(kind, files[bad])]
  {
    hide Read, ReadAll, FilesRead, LeftOf;
    var names := a + [bad] + [last];
    AllPresent(kind, files, a);
    ReadUpTo(kind, files, a, bad, [last]);
    assert names[..|a| + 1] == a + [bad];
    forall f | f in files ensures AfterReading(kind, files, a + [bad])[f] == files[bad := LeftOf(kind, files[bad])][f] {
      if f != bad && f in a {
        var i :| 0 <= i < |a| && a[i] == f;
        ReadLeaves(kind, files[f]);
      }
    }
  }

  /** What a load that truncates leaves loads without truncation if and only if the cut was safe. */
  lemma CutLoadsIff(kind: Kinds, rs: seq<Record>, c: nat)
    requires Good(kind, rs) && c <= |Print(rs)| && !Settles(kind, rs, c)
    ensures Read(kind, Log(AofLoad.Load(kind, Print(rs)[..c]).file)) ==
      if AofResume.SafeToAppend(kind, rs, c) then Some(Kept(kind, rs, c)) else None
  {
    hide *;
    GoodIs(kind, rs);
    LoadOfStream(kind, rs, c);
    var f := AofLoad.Load(kind, Print(rs)[..c]).file;
    if AofResume.SafeToAppend(kind, rs, c) {
      Reopened(kind, rs, c);
      GoodParts(kind, rs[..AofLoadProofs.Whole(rs, |f|)]);
      WholeFileReads(kind, rs[..AofLoadProofs.Whole(rs, |f|)]);
    } else {
      AofResume.LeftOver(kind, rs, c);
      AofCut.PartsValid(kind, rs, c);
      StillOpen(kind, rs, c);
      WholeFileReads(kind, AofCut.Remaining(kind, rs, c));
    }
  }

  lemma StillOpen(kind: Kinds, rs: seq<Record>, c: nat)
    requires !Settles(kind, rs, c) && !AofResume.SafeToAppend(kind, rs, c)
    ensures AofLoad.OpenMulti(kind, AofLoad.Commands(AofCut.Remaining(kind, rs, c))).Some?
  {
    hide AofLoad.OpenMulti, AofLoad.Commands, AofCut.Remaining, AofLoadProofs.Whole, AofCut.Partial, AofCut.LastMulti;
    AofResume.RemainingOpen(kind, rs, c);
  }

  /** A whole list of records that is not the last file. */
  lemma WholeFileReads(kind: Kinds, rs: seq<Record>)
    requires ValidRecords(rs) && AofLoadProofs.Known(kind, rs)
    ensures Read(kind, Log(Print(rs))) ==
      if AofLoad.OpenMulti(kind, AofLoad.Commands(rs)).None? then Some(All(kind, rs)) else None
  {
    hide Print, AofLoad.Load, Kept, All, ValidRecords, AofLoadProofs.Known, AofLoad.OpenMulti, AofLoad.Commands;
    assert Print(rs)[..|Print(rs)|] == Print(rs);
    LoadOfStream(kind, rs, |Print(rs)|);
    NothingPending(kind, rs);
    AofCut.WholeOfAll(rs);
    assert rs[..|rs|] == rs;
  }

  /** A start that fails because the open file is cut and another one is listed behind it: the file is
      cut back on disk, so the next start succeeds and is without the cut commands, unless what is left
      still ends inside a MULTI. */
  lemma SecondStartIff(kind: Kinds, s: State)
    requires Stream(kind, s) && InMemory(kind, s) && s.listing.base == s.manifest.listing.base && !Settles(kind, s.fed, |Content(s)|)
    requires var name := Incr(s.manifest.incrSeq + 1);
      s.listing.incr == s.manifest.listing.incr + [name] && name in s.files && s.files[name] == Log("")
    ensures Recovered(kind, s).None? && s.manifest.listing.incr != []
    ensures Recovered(kind, AfterStart(kind, s)) ==
      if AofResume.SafeToAppend(kind, s.fed, |Content(s)|) then
        Plus(ReadAll(kind, s.files, Settled(s.manifest.listing)), Some(Kept(kind, s.fed, |Content(s)|)))
      else None
  {
    hide *;
    LoadableIffSettles(kind, s);
    MemoryNames(kind, s);
    StreamParts(kind, s);
    var m, name := s.manifest.listing, Incr(s.manifest.incrSeq + 1);
    var a := Settled(m);
    StrayNames(kind, s);
    ReadOfStream(kind, s);
    MemoryReads(kind, s);
    FailedStartDisk(kind, s.files, a, s.fd, name);
    var disk := s.files[s.fd := LeftOf(kind, s.files[s.fd])];
    AfterStartIs(kind, s, a + [s.fd] + [name]);
    ReadSame(kind, s.files, disk, a);
    ReadConcat(kind, disk, a, [s.fd]);
    ReadOne(kind, disk, s.fd);
    LoadSplit(kind, disk, a + [s.fd], name);
    EmptyFile(kind);
    CutLoadsIff(kind, s.fed, |Content(s)|);
    LeftOfLog(kind, s.files[s.fd]);
    PlusNothingMore(Plus(ReadAll(kind, s.files, a), Read(kind, disk[s.fd])));
    PlusNone(ReadAll(kind, s.files, a));
  }

  lemma LeftOfLog(kind: Kinds, d: Data)
    requires d.Log?
    ensures LeftOf(kind, d) == Log(AofLoad.Load(kind, d.text).file)
  {
    hide AofLoad.Load;
  }

  lemma PlusNothingMore(a: Option<seq<Effect>>)
    ensures Plus(a, Some([])) == a
  {
    if a.Some? { PlusNothing(a.value); }
  }

  lemma AfterStartIs(kind: Kinds, s: State, names: seq<FileName>)
    requires LoadList(s.listing) == names
    ensures Recovered(kind, AfterStart(kind, s)) == LoadFiles(kind, LoadDisk(kind, s.files, names), names)
  {
    hide LoadFiles, LoadDisk, LoadList;
  }

  lemma MemoryReads(kind: Kinds, s: State)
    requires InMemory(kind, s) && s.manifest.listing.incr != []
    ensures ReadAll(kind, s.files, Settled(s.manifest.listing)).Some?
  {
    hide ReadAll, Settled, All;
  }

  /** The files of a manifest with the next INCR file behind the open one. */
  lemma StrayNames(kind: Kinds, s: State)
    requires InMemory(kind, s) && s.manifest.listing.incr != [] && s.listing.base == s.manifest.listing.base
    requires s.listing.incr == s.manifest.listing.incr + [Incr(s.manifest.incrSeq + 1)]
    ensures var a, name := Settled(s.manifest.listing), Incr(s.manifest.incrSeq + 1);
      LoadList(s.listing) == a + [s.fd] + [name] && s.fd !in a && name !in a && name != s.fd
  {
    hide ReadAll, All;
    var m, name := s.manifest.listing, Incr(s.manifest.incrSeq + 1);
    OpenFileIsLast(m);
    assert forall i :: 0 <= i < |m.incr| ==> m.incr[i].seqno <= s.manifest.incrSeq;
    assert forall i :: 0 <= i < |Settled(m)| ==> Settled(m)[i] != name;
  }

  // ---------------------------------------------------------------- going on with the next file

  /** The state of a rewrite start after its manifest has been replaced. */
  function ListedNew(s: State): State {
    var m := WithNewIncr(s.manifest);
    s.(files := s.files[Incr(m.incrSeq) := Log("")], listing := m.listing)
  }

  lemma ListedNewState(s: State, o: StartOutcome)
    requires s.child.None? && o.created && !o.persist.FailedBefore?
    ensures var r := StartStates(s, o); |r| >= 2 && r[|r| - 2] == ListedNew(Flush(Deselect(s), o.flush))
  {
    hide Flush, FlushStates, OpenNewIncr;
    FlushIsLocal(Deselect(s), o.flush);
  }

  lemma ListedNewFacts(s: State)
    requires s.fd != Incr(s.manifest.incrSeq + 1)
    ensures var s2, l := s.(files := s.files[Incr(s.manifest.incrSeq + 1) := Log("")]), WithNewIncr(s.manifest).listing;
      && ListedNew(s) == s2.(listing := l) && Content(s2) == Content(s) && Content(ListedNew(s)) == Content(s)
      && l.base == s.manifest.listing.base && l.incr == s.manifest.listing.incr + [Incr(s.manifest.incrSeq + 1)]
  {
  }

  /** Listing a new file behind the open one makes the load depend on where the open one ends. */
  lemma ListedNewLoadsIff(kind: Kinds, s: State)
    requires Inv(kind, s)
    ensures Recovered(kind, ListedNew(s)).Some? <==> Settles(kind, s.fed, |Content(s)|)
  {
    hide *;
    CreateKeeps(kind, s);
    NewIsNotOpen(kind, s);
    ListedNewFacts(s);
    var s2 := s.(files := s.files[Incr(s.manifest.incrSeq + 1) := Log("")]);
    InvParts(kind, s2);
    ListingOnly(kind, s2, WithNewIncr(s.manifest).listing);
    LoadableIffSettles(kind, ListedNew(s));
  }

  lemma ListedNewIsExact(kind: Kinds, s: State)
    requires Inv(kind, s) && s.child.None? && Settles(kind, s.fed, |Content(s)|)
    ensures Exact(kind, ListedNew(s)) && s.fd != Incr(s.manifest.incrSeq + 1) && Content(ListedNew(s)) == Content(s)
  {
    hide *;
    CreateKeeps(kind, s);
    NewIsNotOpen(kind, s);
    ListedNewFacts(s);
    StrayKeeps(kind, s.(files := s.files[Incr(s.manifest.incrSeq + 1) := Log("")]));
    InvIsSafe(kind, ListedNew(s));
    SafeIsExact(kind, ListedNew(s));
  }

  /** Where a rewrite start leaves a server that goes on with the new file. */
  lemma StartIs(s: State, o: StartOutcome)
    requires s.child.None? && o.created && o.persist.Written?
    ensures var s1, s' := Flush(Deselect(s), o.flush), StartRewrite(s, o);
      && s'.files == ListedNew(s1).files && s'.listing == ListedNew(s1).listing && s'.executed == s.executed && s'.buf == s1.buf
      && s'.fd == Incr(s.manifest.incrSeq + 1) && s'.pos == 0 && !s'.append && Content(s') == ""
      && (s'.fd != s.fd ==> s'.fed == s.fed[AofLoadProofs.Whole(s.fed, |Content(s1)|)..])
      && s'.child == if o.forked then Some(Child(s'.executed, o.rdb, s'.fed)) else None
  {
    FlushIsLocal(Deselect(s), o.flush);
    hide Flush, AofLoadProofs.Whole;
  }

  lemma SettlesIs(kind: Kinds, rs: seq<Record>, c: nat)
    requires Settles(kind, rs, c)
    ensures AofLoad.OpenMulti(kind, AofLoad.Commands(rs[..AofLoadProofs.Whole(rs, c)])).None?
  {
  }

  lemma AllPending(kind: Kinds, rs: seq<Record>)
    ensures Pending(kind, rs, 0) == All(kind, rs)
  {
    NothingKept(kind, rs);
    hide Kept, All;
  }

  lemma ExactIff(kind: Kinds, s: State)
    requires Recovered(kind, s).Some?
    ensures Exact(kind, s) <==> s.executed == Recovered(kind, s).value + Pending(kind, s.fed, |Content(s)|)
  {
    hide Recovered, Pending, Content;
  }

  lemma RecoveredSame(kind: Kinds, s: State, s': State)
    requires s.files == s'.files && s.listing == s'.listing
    ensures Recovered(kind, s) == Recovered(kind, s')
  {
    hide LoadFiles, LoadList;
  }

  /** The server goes on with the new file: exact if and only if the records that move are movable. */
  lemma SwitchedIsExactIff(kind: Kinds, s: State, s': State)
    requires Inv(kind, s) && s.child.None? && Settles(kind, s.fed, |Content(s)|)
    requires s'.files == ListedNew(s).files && s'.listing == ListedNew(s).listing && s'.executed == s.executed
    requires s'.fed == s.fed[AofLoadProofs.Whole(s.fed, |Content(s)|)..] && Content(s') == ""
    ensures Exact(kind, s') <==> Movable(kind, s.fed, |Content(s)|)
  {
    hide *;
    var c, l := |Content(s)|, ListedNew(s);
    ListedNewIsExact(kind, s);
    ExactIs(kind, l);
    assert l.executed == s.executed && l.fed == s.fed by { ListedNewFacts(s); }
    RecoveredSame(kind, s', l);
    InvParts(kind, s);
    StreamParts(kind, s);
    StreamSplits(kind, s.fed, c);
    SettlesIs(kind, s.fed, c);
    RestDoes(kind, s.fed, c);
    AllPending(kind, s'.fed);
    ExactIff(kind, s');
    SameTail(Recovered(kind, l).value, Pending(kind, s.fed, c), All(kind, s'.fed));
    SameTail(Kept(kind, s.fed, c), Pending(kind, s.fed, c), All(kind, s'.fed));
  }

  /** Up to the last, the states do not depend on whether the directory can be synced. */
  lemma SameEarlier(s: State, o: StartOutcome)
    requires s.child.None? && o.created && o.persist.Written?
    ensures var r, r' := StartStates(s, o), StartStates(s, o.(persist := FailedAfter));
      |r| == |r'| && forall i :: 0 <= i < |r| - 1 ==> r[i] == r'[i]
  {
    hide Flush, FlushStates, OpenNewIncr, StartRewrite;
  }

  /** A start that leaves the server with its old file. */
  lemma UnopenedIsSound(kind: Kinds, s: State, o: StartOutcome)
    requires SoundFlush(kind, Deselect(s), o.flush) && !(o.created && o.persist.Written?)
    requires o.created && o.persist.FailedAfter? ==> Settles(kind, s.fed, |Content(Flush(Deselect(s), o.flush))|)
    ensures SoundStart(kind, s, o)
  {
    FlushIsLocal(Deselect(s), o.flush);
    hide SoundFlush, Flush, Settles, Content, Movable;
  }

  lemma SafeStart(kind: Kinds, s: State, o: StartOutcome)
    requires Inv(kind, s) && SoundStart(kind, s, o)
    ensures forall i :: 0 <= i < |StartStates(s, o)| ==> Exact(kind, StartStates(s, o)[i])
  {
    hide *;
    StartKeeps(kind, s, o);
    forall i | 0 <= i < |StartStates(s, o)| ensures Exact(kind, StartStates(s, o)[i]) {
      SafeIsExact(kind, StartStates(s, o)[i]);
    }
  }

  /** A rewrite start after a sound flush: it is exact in all its states if and only if a file it lists
      another one behind settles, and what it moves to the new file does the same there. */
  lemma StartIsSafeIff(kind: Kinds, s: State, o: StartOutcome)
    requires Inv(kind, s) && s.child.None? && SoundFlush(kind, Deselect(s), o.flush)
    ensures var c := |Content(Flush(Deselect(s), o.flush))|;
      (forall i :: 0 <= i < |StartStates(s, o)| ==> Exact(kind, StartStates(s, o)[i])) <==>
        && (o.created && !o.persist.FailedBefore? ==> Settles(kind, s.fed, c))
        && (o.created && o.persist.Written? ==> Movable(kind, s.fed, c))
  {
    hide *;
    var s1 := Flush(Deselect(s), o.flush);
    StartFlushed(kind, s, o);
    if o.created && !o.persist.FailedBefore? && !Settles(kind, s.fed, |Content(s1)|) {
      ListedNewState(s, o);
      ListedNewLoadsIff(kind, s1);
      NotExact(kind, ListedNew(s1));
      assert StartStates(s, o)[|StartStates(s, o)| - 2] == ListedNew(s1);
    } else if o.created && o.persist.Written? {
      var o' := o.(persist := FailedAfter);
      UnopenedIsSound(kind, s, o');
      SafeStart(kind, s, o');
      SameEarlier(s, o);
      LastStartState(s, o);
      NewIsNotOpen(kind, s1);
      StartIs(s, o);
      SwitchedIsExactIff(kind, s1, StartRewrite(s, o));
    } else {
      UnopenedIsSound(kind, s, o);
      SafeStart(kind, s, o);
    }
  }

  lemma StartFlushed(kind: Kinds, s: State, o: StartOutcome)
    requires Inv(kind, s) && SoundFlush(kind, Deselect(s), o.flush)
    ensures var s1 := Flush(Deselect(s), o.flush);
      && Inv(kind, s1) && s1.fed == s.fed && s1.fd == s.fd && s1.child == s.child && s1.executed == s.executed && s1.manifest == s.manifest
  {
    hide Inv, SoundFlush, Flush;
    DeselectKeeps(kind, s);
    FlushKeeps(kind, Deselect(s), o.flush);
    FlushIsLocal(Deselect(s), o.flush);
  }

  // ---------------------------------------------------------------- what moves to the next file

  /** An annotation as genAofTimestampAnnotationIfNeeded prints it. */
  function Timestamp(t: nat): string {
    "#TS:" + Dec(t)
  }

  ghost predicate TimestampsOnly(rs: seq<Record>) {
    forall i :: 0 <= i < |rs| && rs[i].Note? ==> exists t: nat :: rs[i].text == Timestamp(t)
  }

  lemma TimestampRest(t: nat, i: nat)
    requires 0 < i < |Timestamp(t) + CRLF|
    ensures (Timestamp(t) + CRLF)[i] !in "#*"
  {
    var s := Timestamp(t) + CRLF;
    if 4 <= i < 4 + |Dec(t)| { assert s[i] == Dec(t)[i - 4]; }
  }

  /** Where a stream settles but does not close, the rest of a timestamp comes next. */
  lemma CutTimestamp(kind: Kinds, rs: seq<Record>, c: nat)
    requires c <= |Print(rs)| && TimestampsOnly(rs) && Settles(kind, rs, c) && !Closes(kind, rs, c)
    ensures c < |Print(rs)| && Print(rs)[c] !in "#*"
  {
    hide Print, PrintRecord, AofLoad.OpenMulti, AofLoad.Commands, AofLoadProofs.Whole, Timestamp;
    var n := AofLoadProofs.Whole(rs, c);
    AofCut.CutShape(rs, c);
    AofLoadProofs.PrintSplit(rs, n);
    assert rs[n..][0] == rs[n];
    var p := c - |Print(rs[..n])|;
    var t: nat :| rs[n].text == Timestamp(t);
    FirstOf(rs[n..]);
    assert PrintRecord(rs[n]) == Timestamp(t) + CRLF by { NotePrinted(rs[n]); }
    TimestampRest(t, p);
    assert Print(rs)[c] == Print(rs[n..])[p] == PrintRecord(rs[n])[p];
  }

  lemma NotePrinted(r: Record)
    requires r.Note?
    ensures PrintRecord(r) == r.text + CRLF
  {
  }

  lemma FirstOf(rs: seq<Record>)
    requires rs != []
    ensures Print(rs) == PrintRecord(rs[0]) + Print(rs[1..])
  {
  }

  /** A file that does not start with an annotation or a command is a format error. */
  lemma BadStart(kind: Kinds, text: string)
    requires text != "" && text[0] !in "#*"
    ensures ReadLast(kind, Log(text)).None?
  {
  }

  /** What is loaded once the new file holds `text`. */
  lemma MovedLoads(kind: Kinds, s: State, s': State, text: string)
    requires Stream(kind, s) && InMemory(kind, s) && s.fd != Incr(s.manifest.incrSeq + 1)
    requires s'.listing == ListedNew(s).listing && s'.files == ListedNew(s).files[Incr(s.manifest.incrSeq + 1) := Log(text)]
    ensures s.manifest.listing.incr != []
    ensures Recovered(kind, s') ==
      Plus(Plus(ReadAll(kind, s.files, Settled(s.manifest.listing)), Read(kind, s.files[s.fd])), ReadLast(kind, Log(text)))
  {
    hide Print, All, Good, ReadAll, Read, ReadLast, LoadFiles;
    var m, name := s.manifest.listing, Incr(s.manifest.incrSeq + 1);
    OpenFileIsLast(m);
    assert LoadList(s'.listing) == (Settled(m) + [s.fd]) + [name];
    assert forall i :: 0 <= i < |m.incr| ==> m.incr[i].seqno <= s.manifest.incrSeq;
    assert forall i :: 0 <= i < |Settled(m)| ==> Settled(m)[i] != name;
    ReadSame(kind, s.files, s'.files, Settled(m));
    ReadConcat(kind, s'.files, Settled(m), [s.fd]);
    ReadOne(kind, s'.files, s.fd);
    LoadSplit(kind, s'.files, Settled(m) + [s.fd], name);
  }

  lemma FlushedNew(s: State)
    requires s.fd in s.files && s.files[s.fd] == Log("") && s.pos == 0 && !s.append
    ensures var s' := Flush(s, WriteAll); s'.files == s.files[s.fd := Log(s.buf)] && s'.listing == s.listing && s'.executed == s.executed
  {
    hide Print;
    var b := s.buf;
    assert b[..|b|] == b && ""[..0] == "" && "" + b + "" == b;
    assert AofFlush.Total([], |b|) == |b|;
  }

  lemma WholeReads(kind: Kinds, rs: seq<Record>)
    requires Good(kind, rs)
    ensures ReadLast(kind, Log(Print(rs))) == Some(All(kind, rs))
  {
    hide Print, AofLoad.Load, Kept, Settles, All;
    GoodIs(kind, rs);
    assert Print(rs)[..|Print(rs)|] == Print(rs);
    LoadOfStream(kind, rs, |Print(rs)|);
    NothingPending(kind, rs);
  }

  /** What is loaded after a rewrite start whose new file has got all that was left to write. */
  lemma MovedIs(kind: Kinds, s: State, o: StartOutcome)
    requires Inv(kind, s) && s.child.None? && SoundFlush(kind, Deselect(s), o.flush) && o.created && o.persist.Written?
    ensures var s1 := Flush(Deselect(s), o.flush);
      && Inv(kind, s1) && s1.fed == s.fed && s1.executed == s.executed && s1.manifest.listing.incr != []
      && Recovered(kind, Flush(StartRewrite(s, o), WriteAll)) ==
           Plus(Plus(ReadAll(kind, s1.files, Settled(s1.manifest.listing)),
                     if Settles(kind, s.fed, |Content(s1)|) then Some(Kept(kind, s.fed, |Content(s1)|)) else None),
                ReadLast(kind, Log(s1.buf)))
  {
    hide *;
    var s1, s2 := Flush(Deselect(s), o.flush), StartRewrite(s, o);
    StartFlushed(kind, s, o);
    InvParts(kind, s1);
    StreamParts(kind, s1);
    NewIsNotOpen(kind, s1);
    StartIs(s, o);
    ListedNewFacts(s1);
    FlushedNew(s2);
    MovedLoads(kind, s1, Flush(s2, WriteAll), s1.buf);
    ReadOfStream(kind, s1);
  }

  lemma MemoryIs(kind: Kinds, s: State)
    requires InMemory(kind, s) && Buffered(s)
    ensures s.manifest.listing.incr != [] && ReadAll(kind, s.files, Settled(s.manifest.listing)).Some?
    ensures s.executed == ReadAll(kind, s.files, Settled(s.manifest.listing)).value + All(kind, s.fed)
    ensures Content(s) + s.buf == Print(s.fed) && s.buf == Print(s.fed)[|Content(s)|..]
  {
    hide Print, All, ReadAll, Settled, Content;
    RestOf(Content(s), s.buf, Print(s.fed));
  }

  lemma PlusNone(a: Option<seq<Effect>>)
    ensures Plus(a, None) == None && Plus(None, a) == None
  {
  }

  lemma PlusOf(a: seq<Effect>, b: seq<Effect>)
    ensures Plus(Some(a), Some(b)) == Some(a + b)
  {
  }

  lemma SoundOpenIff(kind: Kinds, s: State)
    ensures SoundOpen(kind, s, true, Written) <==> Closes(kind, s.fed, |Content(s)|) && Movable(kind, s.fed, |Content(s)|)
    ensures Closes(kind, s.fed, |Content(s)|) ==> Settles(kind, s.fed, |Content(s)|)
  {
    hide Settles, Content, Movable;
  }

  /** When the server goes on with the new file and writes what was left: all is there again if and only
      if the old file ends with whole records and no open MULTI, and what moved is movable. */
  lemma MoveIsSafeIff(kind: Kinds, s: State, o: StartOutcome)
    requires Inv(kind, s) && s.child.None? && SoundFlush(kind, Deselect(s), o.flush) && o.created && o.persist.Written?
    requires TimestampsOnly(s.fed)
    ensures Recovered(kind, Flush(StartRewrite(s, o), WriteAll)) == Some(s.executed) <==>
      SoundOpen(kind, Flush(Deselect(s), o.flush), true, Written)
  {
    hide *;
    var s1 := Flush(Deselect(s), o.flush);
    var c, n := |Content(s1)|, AofLoadProofs.Whole(s.fed, |Content(s1)|);
    MovedIs(kind, s, o);
    InvParts(kind, s1);
    StreamParts(kind, s1);
    MemoryIs(kind, s1);
    SoundOpenIff(kind, s1);
    var x := ReadAll(kind, s1.files, Settled(s1.manifest.listing));
    PlusNone(x);
    PlusNone(ReadLast(kind, Log(s1.buf)));
    if Settles(kind, s.fed, c) {
      PlusOf(x.value, Kept(kind, s.fed, c));
      if Closes(kind, s.fed, c) {
        Split(kind, s.fed, c);
        WholeReads(kind, s.fed[n..]);
        PlusOf(x.value + Kept(kind, s.fed, c), All(kind, s.fed[n..]));
        Associates(x.value, Kept(kind, s.fed, c), All(kind, s.fed[n..]));
        SameTail(x.value, All(kind, s.fed), Kept(kind, s.fed, c) + All(kind, s.fed[n..]));
      } else {
        CutTimestamp(kind, s.fed, c);
        BadStart(kind, s1.buf);
        PlusNone(Some(x.value + Kept(kind, s.fed, c)));
      }
    }
  }

  // ---------------------------------------------------------------- the rewrite is done

  lemma DoneIs(s: State, o: DoneOutcome)
    requires s.child.Some? && o.success && o.renamed && !o.persist.FailedBefore?
    requires DoneManifest(s.manifest, s.child.value.rdb).dirty
    ensures var c := s.child.value;
      var m, name := DoneManifest(s.manifest, c.rdb), Base(s.manifest.baseSeq + 1, c.rdb);
      var s1 := s.(child := None, files := s.files[name := Dataset(c.snapshot)], listing := m.listing);
      Done(s, o) == if o.persist.FailedAfter? then s1.(files := s1.files - if o.removed then {name} else {})
                    else DeleteHistory(s1.(manifest := m.(dirty := false)), o.gc, o.unlinked, o.cleaned)
  {
    hide DeleteHistory, RewrittenAsHistory;
  }

  lemma DeleteIsLocal(s: State, gc: bool, unlinked: set<FileName>, p: Persist)
    requires s.listing == s.manifest.listing
    ensures var s' := DeleteHistory(s, gc, unlinked, p);
      && s'.fd == s.fd && s'.fed == s.fed && s'.executed == s.executed && LoadList(s'.listing) == LoadList(s.listing)
      && forall f :: f !in s.manifest.listing.history && f in s.files ==> f in s'.files && s'.files[f] == s.files[f]
  {
  }

  /** What a finished rewrite leaves to be loaded once its manifest is on disk. */
  lemma DoneFiles(kind: Kinds, s: State, o: DoneOutcome)
    requires InMemory(kind, s) && s.child.Some? && s.fd in s.files
    requires o.success && o.renamed && !o.persist.FailedBefore?
    ensures var s', name := Done(s, o), Base(s.manifest.baseSeq + 1, s.child.value.rdb);
      && LoadList(s'.listing) == [name, s.fd]
      && (o.persist.FailedAfter? && o.removed ==> name !in s'.files)
      && (!(o.persist.FailedAfter? && o.removed) ==> name in s'.files && s'.files[name] == Dataset(s.child.value.snapshot))
      && s.fd in s'.files && s'.files[s.fd] == s.files[s.fd]
      && s'.fd == s.fd && s'.fed == s.fed && s'.executed == s.executed
  {
    hide *;
    var c := s.child.value;
    var m, name := DoneManifest(s.manifest, c.rdb), Base(s.manifest.baseSeq + 1, c.rdb);
    NewManifest(kind, s, c.rdb);
    DoneIs(s, o);
    var s1 := s.(child := None, files := s.files[name := Dataset(c.snapshot)], listing := m.listing);
    DeleteIsLocal(s1.(manifest := m.(dirty := false)), o.gc, o.unlinked, o.cleaned);
  }

  lemma NewManifest(kind: Kinds, s: State, rdb: bool)
    requires InMemory(kind, s)
    ensures var m, name := DoneManifest(s.manifest, rdb), Base(s.manifest.baseSeq + 1, rdb);
      && m.dirty && LoadList(m.listing) == [name, s.fd] && name != s.fd
      && name !in m.listing.history && s.fd !in m.listing.history
  {
    hide *;
    MemoryNames(kind, s);
    DoneManifestShape(s.manifest, rdb);
    TwoFiles(DoneManifest(s.manifest, rdb).listing, Base(s.manifest.baseSeq + 1, rdb), s.fd);
  }

  lemma MemoryNames(kind: Kinds, s: State)
    requires InMemory(kind, s)
    ensures Ordered(s.manifest.listing) && s.manifest.listing.incr != [] && s.manifest.listing.base.Some?
    ensures s.fd == Last(s.manifest.listing) && s.fd.Incr? && s.manifest.baseSeq == s.manifest.listing.base.value.seqno
  {
    hide ReadAll, All, Settled;
  }

  lemma TwoFiles(l: Listing, base: FileName, incr: FileName)
    requires Ordered(l) && l.base == Some(base) && l.incr == [incr] && base.Base? && incr.Incr?
    ensures LoadList(l) == [base, incr] && base !in l.history && incr !in l.history
  {
  }

  /** The snapshot and the open file are loaded, unless the new BASE file is gone. */
  lemma DoneLoads(kind: Kinds, s: State, o: DoneOutcome)
    requires Inv(kind, s) && s.child.Some? && o.success && o.renamed && !o.persist.FailedBefore?
    ensures Recovered(kind, Done(s, o)) ==
      if o.persist.FailedAfter? && o.removed then None
      else Some(s.child.value.snapshot + Kept(kind, s.fed, |Content(s)|))
  {
    hide *;
    InvParts(kind, s);
    StreamParts(kind, s);
    DoneFiles(kind, s, o);
    ReadOfStream(kind, s);
    var s', name := Done(s, o), Base(s.manifest.baseSeq + 1, s.child.value.rdb);
    RecoveredOf(kind, s', [name, s.fd]);
    if o.persist.FailedAfter? && o.removed {
      FailedIsFatal(kind, s'.files, [name, s.fd], name);
    } else {
      assert [name, s.fd] == [name] + [s.fd];
      LoadSplit(kind, s'.files, [name], s.fd);
      ReadOne(kind, s'.files, name);
      ReadDataset(kind, s.child.value.snapshot);
      PlusOf(s.child.value.snapshot, Kept(kind, s.fed, |Content(s)|));
    }
  }

  lemma StreamParts(kind: Kinds, s: State)
    requires Stream(kind, s)
    ensures Good(kind, s.fed) && s.fd in s.files && s.files[s.fd].Log?
    ensures |Content(s)| <= |Print(s.fed)| && Content(s) == Print(s.fed)[..|Content(s)|] && Content(s) == s.files[s.fd].text
  {
    hide Good, Print;
  }

  lemma RecoveredOf(kind: Kinds, s: State, names: seq<FileName>)
    requires LoadList(s.listing) == names
    ensures Recovered(kind, s) == LoadFiles(kind, s.files, names)
  {
  }

  lemma ReadDataset(kind: Kinds, effects: seq<Effect>)
    ensures Read(kind, Dataset(effects)) == Some(effects)
  {
  }

  /** A rewrite is exact in the end if and only if nothing was late, or its manifest never got to
      the disk; and the new BASE file must not be removed once it is named. */
  lemma DoneIsSafeIff(kind: Kinds, s: State, o: DoneOutcome)
    requires Inv(kind, s)
    ensures Exact(kind, Done(s, o)) <==> SoundDone(kind, s, o)
  {
    hide *;
    if SoundDone(kind, s, o) {
      DoneKeeps(kind, s, o);
      InvIsSafe(kind, Done(s, o));
      SafeIsExact(kind, Done(s, o));
    } else {
      UnsoundCases(kind, s, o);
      DoneLoads(kind, s, o);
      if o.persist.FailedAfter? && o.removed {
        NotExact(kind, Done(s, o));
      } else {
        LateIsDuplicated(kind, s, o);
      }
    }
  }

  lemma UnsoundCases(kind: Kinds, s: State, o: DoneOutcome)
    requires !SoundDone(kind, s, o)
    ensures s.child.Some? && o.success && o.renamed && !o.persist.FailedBefore?
    ensures All(kind, s.child.value.late) != [] || (o.persist.FailedAfter? && o.removed)
  {
    hide All;
  }

  lemma LateIsDuplicated(kind: Kinds, s: State, o: DoneOutcome)
    requires Inv(kind, s) && s.child.Some? && o.success && o.renamed && !o.persist.FailedBefore?
    requires !(o.persist.FailedAfter? && o.removed) && All(kind, s.child.value.late) != []
    ensures !Exact(kind, Done(s, o))
  {
    hide *;
    InvParts(kind, s);
    StreamParts(kind, s);
    DoneFiles(kind, s, o);
    DoneLoads(kind, s, o);
    var s', c := Done(s, o), |Content(s)|;
    ContentOf(s');
    ContentOf(s);
    StreamSplits(kind, s.fed, c);
    LateCounts(kind, s);
    if Exact(kind, s') {
      ExactIs(kind, s');
      assert false;
    }
  }

  lemma ContentOf(s: State)
    requires s.fd in s.files && s.files[s.fd].Log?
    ensures Content(s) == s.files[s.fd].text
  {
  }

  lemma LateCounts(kind: Kinds, s: State)
    requires InMemory(kind, s) && Forking(kind, s) && s.child.Some? && s.manifest.listing.incr != []
    ensures |s.executed| + |All(kind, s.child.value.late)| == |s.child.value.snapshot| + |All(kind, s.fed)|
  {
    hide All, ReadAll, Settled, Ordered;
  }

  // ---------------------------------------------------------------- going on after a crash

  const WriteAll := FlushOutcome([], true)

  /** A command for a database, as it is fed. */
  function Write(db: nat, x: Argv): Call {
    Call(None, Some(db), x)
  }

  /** It is executed and written without failure. */
  function WriteOne(s: State, db: nat, x: Argv): State {
    Flush(Exec(s, [Write(db, x)]), WriteAll)
  }

  lemma PairIs(a: Argv, b: Argv)
    ensures AofResume.Cmds([a, b]) == [Cmd(a), Cmd(b)] && AofResume.Cmds([b]) == [Cmd(b)]
  {
    assert [a, b][..1] == [a] && [a][..0] == [] && [b][..0] == [];
    assert AofResume.Cmds([a]) == [Cmd(a)];
  }

  lemma OneRecords(selected: Option<nat>, db: nat, x: Argv)
    ensures FeedRecords(selected, [Write(db, x)]) == AofResume.Cmds(if selected == Some(db) then [x] else [SelectArgv(db), x])
    ensures SelectedAfter(selected, [Write(db, x)]) == Some(db) && Effects([Write(db, x)]) == [Effect(db, x)]
  {
    hide SelectArgv, AofResume.Cmds;
    PairIs(SelectArgv(db), x);
    assert [Write(db, x)][..0] == [];
  }

  lemma OneIsGood(kind: Kinds, db: nat, x: Argv)
    requires GoodCall(kind, Write(db, x))
    ensures GoodUnit(kind, [Write(db, x)]) && AofResume.DataOnly(kind, [SelectArgv(db), x]) && AofResume.DataOnly(kind, [x])
  {
    hide ValidRecord, SelectArgv, Selects;
    SelectIsValid(db);
    assert [Write(db, x)][..0] == [] && [x][..0] == [];
    assert Argvs([Write(db, x)]) == [x];
    assert AofLoad.OpenMulti(kind, []).None?;
  }

  lemma OneWrite(kind: Kinds, selected: Option<nat>, db: nat, x: Argv)
    requires GoodCall(kind, Write(db, x))
    ensures var unit := [Write(db, x)];
      && GoodUnit(kind, unit) && Effects(unit) == [Effect(db, x)] && SelectedAfter(selected, unit) == Some(db)
      && FeedRecords(selected, unit) == AofResume.Cmds(if selected == Some(db) then [x] else [SelectArgv(db), x])
      && AofResume.DataOnly(kind, [SelectArgv(db), x]) && AofResume.DataOnly(kind, [x])
  {
    hide *;
    OneRecords(selected, db, x);
    OneIsGood(kind, db, x);
  }

  lemma WriteOneText(kind: Kinds, s: State, db: nat, x: Argv)
    requires GoodCall(kind, Write(db, x)) && s.append && s.buf == "" && s.size == |Content(s)| && s.selected.None?
    ensures var s' := WriteOne(s, db, x);
      && s'.files == s.files[s.fd := Log(Content(s) + Print(AofResume.Cmds([SelectArgv(db), x])))]
      && s'.listing == s.listing && s'.buf == "" && s'.executed == s.executed + [Effect(db, x)]
  {
    hide *;
    OneRecords(None, db, x);
    OneFed(s, [Write(db, x)]);
    AppendedText(Exec(s, [Write(db, x)]));
    WriteOneIs(s, db, x);
  }

  lemma OneFed(s: State, unit: seq<Call>)
    requires s.buf == "" && s.selected.None?
    ensures var s' := Exec(s, unit);
      && s'.buf == Print(FeedRecords(None, unit)) && s'.executed == s.executed + Effects(unit) && Content(s') == Content(s)
      && s'.append == s.append && s'.files == s.files && s'.fd == s.fd && s'.listing == s.listing && s'.size == s.size
  {
    hide Print, FeedRecords, Effects, SelectedAfter;
    assert "" + Print(FeedRecords(None, unit)) == Print(FeedRecords(None, unit));
  }

  lemma AppendedText(s: State)
    requires s.append && s.size == |Content(s)|
    ensures var s' := Flush(s, WriteAll);
      s'.files == s.files[s.fd := Log(Content(s) + s.buf)] && s'.listing == s.listing && s'.buf == "" && s'.executed == s.executed
  {
    hide Print;
    var b := s.buf;
    assert b[..|b|] == b;
    if b == "" { PlusNothing(Content(s)); }
    else { assert Content(s)[..|Content(s)|] == Content(s); PlusNothing(Content(s) + b); }
  }

  /** After a restart where it may resume, the command is there again. */
  lemma ResumedWriteIsKept(kind: Kinds, s: State, db: nat, x: Argv)
    requires CrashSafe(kind, s) && Resumable(kind, s) && GoodCall(kind, Write(db, x))
    ensures s.listing.incr != [] && Recovered(kind, s).Some?
    ensures var s' := WriteOne(Restart(kind, s), db, x); Recovered(kind, s') == Some(s'.executed)
  {
    hide *;
    SafeParts(kind, s);
    RestartKeeps(kind, s);
    RestartIs(kind, s);
    var s1 := Exec(Restart(kind, s), [Write(db, x)]);
    OneWrite(kind, None, db, x);
    ExecKeeps(kind, Restart(kind, s), [Write(db, x)]);
    AppendIsSound(kind, Restart(kind, s), [Write(db, x)]);
    FlushKeeps(kind, s1, WriteAll);
    WriteOneIs(Restart(kind, s), db, x);
    var s' := WriteOne(Restart(kind, s), db, x);
    InvIsSafe(kind, s');
    SafeIsExact(kind, s');
    InvParts(kind, Restart(kind, s));
    StreamParts(kind, Restart(kind, s));
    WriteOneText(kind, Restart(kind, s), db, x);
    FlushedIsRecovered(kind, s');
  }

  lemma WriteOneIs(s: State, db: nat, x: Argv)
    ensures WriteOne(s, db, x) == Flush(Exec(s, [Write(db, x)]), WriteAll)
  {
  }

  lemma RestartIs(kind: Kinds, s: State)
    requires s.listing.incr != [] && Recovered(kind, s).Some? && Last(s.listing) in s.files
    ensures var s', text := Restart(kind, s), AofLoad.Load(kind, TextOf(s.files[Last(s.listing)])).file;
      && s'.append && s'.buf == "" && s'.selected.None? && s'.listing == s.listing && s'.fd == Last(s.listing)
      && s'.size == |Content(s')| && Content(s') == text && s'.files == s.files[Last(s.listing) := Log(text)]
      && s'.executed == Recovered(kind, s).value
  {
    hide Recovered, AofLoad.Load, AofLoadProofs.Whole;
  }

  lemma AppendIsSound(kind: Kinds, s: State, unit: seq<Call>)
    requires s.append && s.listing.incr != [] && Last(s.listing) == s.fd
    ensures SoundFlush(kind, Exec(s, unit), WriteAll)
  {
    hide Print, FeedRecords, Effects, SelectedAfter, Settles;
  }

  /** Otherwise the command is executed and written, and not there again. */
  lemma TornWriteIsLost(kind: Kinds, s: State, db: nat, x: Argv)
    requires CrashSafe(kind, s) && !Resumable(kind, s) && GoodCall(kind, Write(db, x))
    ensures s.listing.incr != [] && Recovered(kind, s).Some?
    ensures var s' := WriteOne(Restart(kind, s), db, x); Recovered(kind, s') != Some(s'.executed)
  {
    hide *;
    SafeParts(kind, s);
    RestartIs(kind, s);
    TornIs(kind, s);
    StreamParts(kind, s);
    assert TextOf(s.files[s.fd]) == Content(s) by { TextOfLog(s.files[s.fd]); }
    GoodIs(kind, s.fed);
    var r, xs := Restart(kind, s), [SelectArgv(db), x];
    var first := AofLoad.Load(kind, Content(s));
    OneWrite(kind, None, db, x);
    WriteOneText(kind, r, db, x);
    AofResume.AppendedIsLost(kind, s.fed, |Content(s)|, xs);
    LoadOfStream(kind, s.fed, |Content(s)|);
    LastReads(kind, first.file + Print(AofResume.Cmds(xs)), Kept(kind, s.fed, |Content(s)|));
    ReadOfStream(kind, s);
    assert WriteOne(r, db, x).files == s.files[s.fd := Log(first.file + Print(AofResume.Cmds(xs)))];
    SameButLast(kind, s, r, WriteOne(r, db, x), first.file + Print(AofResume.Cmds(xs)));
    OneLonger(r.executed, Effect(db, x));
  }

  lemma TextOfLog(d: Data)
    requires d.Log?
    ensures TextOf(d) == d.text
  {
  }

  lemma OneLonger(a: seq<Effect>, x: Effect)
    ensures a + [x] != a
  {
    assert |a + [x]| == |a| + 1;
  }

  lemma GoodIs(kind: Kinds, rs: seq<Record>)
    requires Good(kind, rs)
    ensures ValidRecords(rs) && AofLoadProofs.Known(kind, rs)
  {
  }

  lemma SafeParts(kind: Kinds, s: State)
    requires CrashSafe(kind, s)
    ensures Ordered(s.listing) && s.listing.incr != [] && Stream(kind, s) && Last(s.listing) in s.files
    ensures ReadAll(kind, s.files, Settled(s.listing)).Some? && Recovered(kind, s).Some?
  {
    SafeIsExact(kind, s);
    hide Stream, ReadAll, Settled, Recovered, All, Pending;
  }

  lemma TornIs(kind: Kinds, s: State)
    requires !Resumable(kind, s)
    ensures s.listing.incr != [] && Last(s.listing) == s.fd && !AofResume.SafeToAppend(kind, s.fed, |Content(s)|)
  {
    hide AofResume.SafeToAppend;
  }

  lemma LastReads(kind: Kinds, text: string, effects: seq<Effect>)
    requires Place(AofLoad.Load(kind, text).executed, 0) == effects
    ensures ReadLast(kind, Log(text)) == None || ReadLast(kind, Log(text)) == Some(effects)
  {
    hide AofLoad.Load, Place;
  }

  /** Only the last file differs: what is loaded is what was loaded, or nothing at all. */
  lemma SameButLast(kind: Kinds, s: State, r: State, s': State, text: string)
    requires Ordered(s.listing) && s.listing.incr != [] && Last(s.listing) == s.fd && s.fd in s.files
    requires s'.listing == s.listing && s'.files == s.files[s.fd := Log(text)]
    requires ReadAll(kind, s.files, Settled(s.listing)).Some? && Recovered(kind, s) == Some(r.executed)
    requires ReadLast(kind, Log(text)) == None || ReadLast(kind, Log(text)) == ReadLast(kind, s.files[s.fd])
    ensures Recovered(kind, s') == None || Recovered(kind, s') == Some(r.executed)
  {
    hide *;
    OpenFileIsLast(s.listing);
    ReadSame(kind, s.files, s'.files, Settled(s.listing));
    LoadSplit(kind, s.files, Settled(s.listing), s.fd);
    LoadSplit(kind, s'.files, Settled(s.listing), s.fd);
    RecoveredOf(kind, s, Settled(s.listing) + [s.fd]);
    RecoveredOf(kind, s', Settled(s.listing) + [s.fd]);
    PlusNone(ReadAll(kind, s.files, Settled(s.listing)));
  }

  /** A restarted server may go on writing if and only if the crash left a file that can be resumed. */
  lemma RestartResumesIff(kind: Kinds, s: State, db: nat, x: Argv)
    requires CrashSafe(kind, s) && GoodCall(kind, Write(db, x))
    ensures s.listing.incr != [] && Recovered(kind, s).Some?
    ensures var s' := WriteOne(Restart(kind, s), db, x); Recovered(kind, s') == Some(s'.executed) <==> Resumable(kind, s)
  {
    hide *;
    if Resumable(kind, s) {
      ResumedWriteIsKept(kind, s, db, x);
    } else {
      TornWriteIsLost(kind, s, db, x);
    }
  }
}
