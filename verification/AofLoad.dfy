/** loadSingleAppendOnlyFile on a file without RDB preamble, with aof-load-truncated. */
module AofLoad {
  import opened Text
  import opened AofFormat

  // ---------------------------------------------------------------- reading the file

  /** Where fgets stops: after a newline, at the end of the file, or when the buffer is full. */
  function LineEnd(f: string, p: nat, room: nat): (q: nat)
    requires p <= |f|
    ensures p <= q <= |f| && (p < |f| && room > 0 ==> p < q)
    decreases room
  {
    if p == |f| || room == 0 then p
    else if f[p] == '\n' then p + 1
    else LineEnd(f, p + 1, room - 1)
  }

  /** fgets(buf, 1024, fp) from position p; nothing is left to read at the end. */
  function FGets(f: string, p: nat): (q: nat)
    requires p < |f|
    ensures p < q <= |f|
  {
    LineEnd(f, p, LINE_MAX - 1)
  }

  /** Whether fgets from p to q met the end of the file, so that feof() holds. */
  predicate MetEnd(f: string, p: nat, q: nat)
    requires p < q <= |f|
  {
    q == |f| && f[q - 1] != '\n' && q - p < LINE_MAX - 1
  }

  /** The outcome of reading the arguments of a command, or of one turn of the main loop. */
  datatype Parsed = End | Annotation(next: nat) | Command(argv: Argv, next: nat) | ReadError | FormatError

  datatype Arg = GotArg(arg: string, next: nat) | ShortArg | BadArg

  /** One argument: its length line, its bytes, and the two bytes after them.  A negative
      length would make the allocation fail. */
  function ReadArg(f: string, p: nat): (r: Arg)
    requires p <= |f|
    ensures r.GotArg? ==> p < r.next <= |f|
  {
    if p == |f| then ShortArg
    else if f[p] != '$' then BadArg
    else
      var q := FGets(f, p);
      var len := ParseNum(f[p + 1..q]);
      if len < 0 then BadArg
      else if q + len > |f| then ShortArg
      else if q + len + 2 > |f| then ShortArg
      else GotArg(f[q..q + len], q + len + 2)
  }

  /** The loop over the arguments: `todo` more, after those in acc. */
  function ReadArgs(f: string, p: nat, todo: nat, acc: Argv): (r: Parsed)
    requires p <= |f|
    ensures r.Command? ==> p <= r.next <= |f| && |r.argv| == |acc| + todo
    ensures !r.End? && !r.Annotation?
    decreases todo
  {
    if todo == 0 then Command(acc, p)
    else
      match ReadArg(f, p)
      case GotArg(arg, next) => ReadArgs(f, next, todo - 1, acc + [arg])
      case ShortArg => ReadError
      case BadArg => FormatError
  }

  /** One turn of the main loop, up to the command lookup.  A line that is '*' alone, or has a
      NUL byte behind it, is a short read only at the end of the file. */
  function ReadRecord(f: string, p: nat): (r: Parsed)
    requires p <= |f|
    ensures r.Annotation? ==> p < r.next <= |f|
    ensures r.Command? ==> p < r.next <= |f| && r.argv != []
  {
    if p == |f| then End
    else
      var q := FGets(f, p);
      if f[p] == '#' then Annotation(q)
      else if f[p] != '*' then FormatError
      else if q == p + 1 || f[p + 1] == NUL then (if MetEnd(f, p, q) then ReadError else FormatError)
      else
        var argc := ParseNum(f[p + 1..q]);
        if argc < 1 then FormatError else ReadArgs(f, q, argc, [])
  }

  // ---------------------------------------------------------------- running commands

  datatype Kind = Multi | Exec | Other | Unknown

  /** The fake client and the two offsets: whether it is inside MULTI, the commands queued
      there, the commands executed, the end of the last command, and the end of the one
      before the last MULTI. */
  datatype Loader = Loader(multi: bool, queue: seq<Argv>, executed: seq<Argv>, validUpTo: nat, validBeforeMulti: nat)

  const Start := Loader(false, [], [], 0, 0)

  /** One command, ending at `next`.  Inside MULTI everything but EXEC is queued; a queued
      MULTI has no effect when it is run. */
  function Run(kind: Argv -> Kind, l: Loader, argv: Argv, next: nat): Loader {
    var l1 := if kind(argv).Multi? then l.(validBeforeMulti := l.validUpTo) else l;
    var l2 :=
      if l.multi then
        match kind(argv)
        case Exec => l1.(multi := false, queue := [], executed := l1.executed + l1.queue)
        case Other => l1.(queue := l1.queue + [argv])
        case _ => l1
      else
        match kind(argv)
        case Multi => l1.(multi := true, queue := [])
        case Other => l1.(executed := l1.executed + [argv])
        case _ => l1;
    l2.(validUpTo := next)
  }

  datatype Status = AofOk | AofTruncated | AofFailed | AofEmpty

  /** What loading yields: the commands executed and the file afterwards. */
  datatype Loaded = Loaded(status: Status, executed: seq<Argv>, file: string)

  /** The main loop from position p on, and the ways out of it. */
  function LoadFrom(kind: Argv -> Kind, f: string, p: nat, l: Loader): Loaded
    requires p <= |f| && l.validUpTo <= |f| && l.validBeforeMulti <= |f|
    decreases |f| - p
  {
    match ReadRecord(f, p)
    case End =>
      if l.multi then Loaded(AofTruncated, l.executed, f[..l.validBeforeMulti]) else Loaded(AofOk, l.executed, f)
    case Annotation(next) => LoadFrom(kind, f, next, l)
    case Command(argv, next) =>
      if kind(argv).Unknown? then Loaded(AofFailed, l.executed, f)
      else LoadFrom(kind, f, next, Run(kind, l, argv, next))
    case ReadError => Loaded(AofTruncated, l.executed, f[..l.validUpTo])
    case FormatError => Loaded(AofFailed, l.executed, f)
  }

  function Load(kind: Argv -> Kind, f: string): Loaded {
    if f == "" then Loaded(AofEmpty, [], f) else LoadFrom(kind, f, 0, Start)
  }

  // ---------------------------------------------------------------- the loader's loops

  method ReadLine(f: string, p: nat) returns (q: nat)
    requires p < |f|
    ensures q == FGets(f, p)
  {
    q := p;
    var room := LINE_MAX - 1;
    while q < |f| && room > 0
      invariant p <= q <= |f| && 0 <= room
      invariant LineEnd(f, q, room) == LineEnd(f, p, LINE_MAX - 1)
      decreases room
    {
      if f[q] == '\n' { return q + 1; }
      q, room := q + 1, room - 1;
    }
  }

  method ReadArguments(f: string, p: nat, argc: nat) returns (r: Parsed)
    requires p <= |f|
    ensures r == ReadArgs(f, p, argc, [])
  {
    hide ParseNum, FGets;
    var pos, j := p, 0;
    var argv: Argv := [];
    while j < argc
      invariant 0 <= j <= argc && p <= pos <= |f| && |argv| == j
      invariant ReadArgs(f, pos, argc - j, argv) == ReadArgs(f, p, argc, [])
    {
      if pos == |f| { return ReadError; }
      var q := ReadLine(f, pos);
      if f[pos] != '$' { return FormatError; }
      var len := ParseNum(f[pos + 1..q]);
      if len < 0 { return FormatError; }
      if len > 0 && q + len > |f| { return ReadError; }
      var arg := f[q..q + len];
      argv := argv + [arg];
      if q + len + 2 > |f| { return ReadError; }
      pos, j := q + len + 2, j + 1;
    }
    r := Command(argv, pos);
  }

  /** loadSingleAppendOnlyFile: the fake client's state in local variables. */
  method LoadSingleFile(kind: Argv -> Kind, f: string) returns (r: Loaded)
    ensures r == Load(kind, f)
  {
    if |f| == 0 { return Loaded(AofEmpty, [], f); }
    hide ReadArgs, ParseNum, FGets;
    var multi, queue: seq<Argv>, executed: seq<Argv> := false, [], [];
    var validUpTo: nat, validBeforeMulti: nat, pos: nat := 0, 0, 0;
    while pos < |f|
      invariant pos <= |f| && validUpTo <= |f| && validBeforeMulti <= |f|
      invariant LoadFrom(kind, f, pos, Loader(multi, queue, executed, validUpTo, validBeforeMulti)) == Load(kind, f)
      decreases |f| - pos
    {
      var q := ReadLine(f, pos);
      if f[pos] == '#' { pos := q; continue; }
      if f[pos] != '*' { return Loaded(AofFailed, executed, f); }
      if q == pos + 1 || f[pos + 1] == NUL {
        if MetEnd(f, pos, q) { return Loaded(AofTruncated, executed, f[..validUpTo]); }
        return Loaded(AofFailed, executed, f);
      }
      var argc := ParseNum(f[pos + 1..q]);
      if argc < 1 { return Loaded(AofFailed, executed, f); }
      var args := ReadArguments(f, q, argc);
      if args.ReadError? { return Loaded(AofTruncated, executed, f[..validUpTo]); }
      if args.FormatError? { return Loaded(AofFailed, executed, f); }
      var argv := args.argv;
      var cmd := kind(argv);
      if cmd.Unknown? { return Loaded(AofFailed, executed, f); }
      if cmd.Multi? { validBeforeMulti := validUpTo; }
      if multi && !cmd.Exec? {
        if cmd.Other? { queue := queue + [argv]; }
      } else if cmd.Multi? {
        multi, queue := true, [];
      } else if cmd.Exec? {
        if multi { executed := executed + queue; multi, queue := false, []; }
      } else {
        executed := executed + [argv];
      }
      pos := args.next;
      validUpTo := pos;
    }
    if multi {
      validUpTo := validBeforeMulti;
      return Loaded(AofTruncated, executed, f[..validUpTo]);
    }
    r := Loaded(AofOk, executed, f);
  }

  // ---------------------------------------------------------------- the promise

  /** The commands among the records. */
  function Commands(rs: seq<Record>): seq<Argv> {
    if rs == [] then []
    else if rs[|rs| - 1].Cmd? then Commands(rs[..|rs| - 1]) + [rs[|rs| - 1].argv]
    else Commands(rs[..|rs| - 1])
  }

  /** The index of the MULTI that is still open after cs, if any. */
  function OpenMulti(kind: Argv -> Kind, cs: seq<Argv>): (r: Option<nat>)
    ensures r.Some? ==> r.value < |cs|
  {
    if cs == [] then None
    else
      var last := kind(cs[|cs| - 1]);
      match OpenMulti(kind, cs[..|cs| - 1])
      case None => if last.Multi? then Some(|cs| - 1) else None
      case Some(i) => if last.Exec? then None else Some(i)
  }

  /** The commands that work on the dataset. */
  function DataCommands(kind: Argv -> Kind, cs: seq<Argv>): seq<Argv> {
    if cs == [] then []
    else if kind(cs[|cs| - 1]).Other? then DataCommands(kind, cs[..|cs| - 1]) + [cs[|cs| - 1]]
    else DataCommands(kind, cs[..|cs| - 1])
  }

  /** What loading cs is to execute: everything, except what is inside a MULTI without EXEC. */
  function Effective(kind: Argv -> Kind, cs: seq<Argv>): seq<Argv> {
    match OpenMulti(kind, cs)
    case None => DataCommands(kind, cs)
    case Some(i) => DataCommands(kind, cs[..i])
  }
}
