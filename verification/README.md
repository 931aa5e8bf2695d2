# Valkey 8.0.2: models and proofs of its hard parts

This project models five parts of the Valkey 8.0.2 server and proves what their clever code promises:
the ACL selectors and users, the append-only file, the bitmap commands, the clients blocked on keys, and
the smaller protocols around them (event ports, background jobs, hash slots and the glob matcher).

State that the server updates in place is modelled by classes (`SelectorObject`, `CommandIds`, `Server`,
`Appender`, `EventLoop`, `Queues`) whose methods have the loops of the source. Their methods are tied
to functions on values, and the properties over whole runs are proved about those functions. Addresses,
file descriptors, clocks, the kernel, other threads, the outcome of system calls and what a served command
does are parameters, so every statement holds for all of them.

Modules, by part:

- `Seqs`, `Text`, `TextExact`, `TextQuote`: sequences, letter case, blank-separated lists, the argument splitter of
  sds.c and the quoting it reads.
- `AclRuleText`, `AclCommands`, `AclReplay`, `AclSelector`, `AclInvariant`, `AclDescribe`, `AclSelectorObject`,
  `AclEffects`, `AclLimits`, `AclCommandId`: selectors and their rule log. `AclUser`, `AclUserInvariant`,
  `AclUserEffects`, `AclRoundTrip`, `AclUserText`, `AclUserRoundTrip`, `AclUserPrint`, `AclUserExact`: users,
  printing and reading back.
- `AofFormat`, `AofLoad`, `AofLoadProofs`, `AofCut`, `AofResume`: the file format and the loader of one file.
  `AofFlush`: writing the buffer to a file. `AofStream`: a stream of records of which a file holds the first bytes,
  and the databases its commands work on. `AofFeed`: feeding commands, with their SELECTs, to the buffer.
  `AofRewrite`, `AofRewriteProofs`, `AofFiles`, `AofLimits`, `AofRuns`, `AofServer`: the files of a manifest over
  whole runs.
- `Bits`, `Popcounting`, `BitRange`, `BitCountCommand`, `BitSearch`, `BitPosCommand`, `BitOpCommand`, `BitField`,
  `BitOverflow`, `BitFieldCommand`: the bitmap commands.
- `Blocking`, `BlockedState`, `BlockedServer`, `Serving`, `BlockedEffects`, `Waking`: blocked clients.
- `Evport`, `EvportLoop`, `Bio`, `BioQueues`, `Glob`, `GlobMeaning`, `HashSlot`.

## What does not hold

Some statements one would expect are false of the code. The lemmas named with each of them give the exact
condition under which the code is right, inputs that show the failure, or both.

- A new INCR file is opened without append mode: after a short write was truncated away the next write
  leaves a hole of zero bytes, and nothing can be loaded (`FlushIsConsistentIff`, `RepairLeavesHole` for the
  bytes; `FlushIsSafeIff`, `RepairedWriteIsFatal`, `HoleRun` for the files).
- A short write that cannot be truncated away leaves part of a command in the open file. When a rewrite then
  opens the next INCR file, the command is split over two files and nothing can be loaded (`StartIsSafeIff`,
  `SplitCommandIsFatal`, `SplitRun`). The start that fails cuts the file, so that the next one succeeds, without
  the command (`SecondStartIff`). A timestamp annotation split that way is as bad once its rest is written
  (`MoveIsSafeIff`).
- A rewrite forgets the selected database before its forced flush. Records that this flush leaves in the buffer
  move to the new INCR file without a SELECT of their own, and are loaded into database 0 (`PlacedAlikeIff`,
  `StartIsSafeIff`, `MoveIsSafeIff`, `SelectRun`).
- A manifest that was renamed but whose directory could not be synced counts as a failure. When it names a new
  BASE file, that file is removed (`DoneIsSafeIff`, `UnsyncedManifestLosesBase`). When it names a new INCR file,
  the server goes on with the old one, and a write that ends inside a command or transaction is then fatal
  instead of being truncated on the next start (`LoadableIffSettles`, `FlushIsSafeIff`).
- Writes still buffered when the rewrite child is forked end up in the BASE file and in the INCR file
  (`DoneIsSafeIff`, `BufferedWriteIsDuplicated`, `DuplicateRun`).
- A finished rewrite forgets its history files even where an unlink failed, and a BASE file that an earlier attempt
  has left is passed over when it has the other format (AOF or RDB). Such files stay on disk for good
  (`StepTidyIff`, `RunTidyIff`).
- After some cuts the truncated file still ends inside a MULTI or inside an annotation, and the commands
  appended next are not executed by the following load (`ResumeIff`, `AppendedIsLost`, `RestartResumesIff`).
- Recomputing a bitmap can set the ALLCOMMANDS flag (`FlagIsGained`); a first-arg with a blank or a quote
  cannot be read back from the log (`AcceptedRuleReadsBackIff`, `BlankInFirstArgIsLost`); a key pattern `*`
  with both permissions comes back as ALLKEYS (`SelectorRoundTrip`, `StarIsLost`); words with quotes, or with a
  parenthesis at the end, do not come back from a selector in parentheses (`EnclosedWordsIff`, `GatheredIff`,
  `SelectorBackIff`). `UserRoundTripIff` puts these together for whole users.
- A string that ends with a backslash cannot be written between single quotes (`SingleRoundTripIff`).
- Saturating a signed field from a very negative value stores the maximum, and a negative value saturates an
  unsigned field to its maximum (`SignedSetIsExactIff`, `SaturatesToTheWrongBound`, `StoredAsPromisedIff`).
- BITFIELD creates or lengthens a string without reporting a change when all its writes are refused by OVERFLOW
  FAIL (`BitFieldGeneric`).
- Removing AE_BARRIER alone leaves a descriptor associated that has no event (`DeleteKeepsInvIff`,
  `BarrierAloneLeavesAGhost`).
- The deletion of an object of another type reaches a client that waits for deletions only if some client is
  blocked on that type (`DeletionReachesOtherKindsIff`).
- BITCOUNT and BITPOS treat two negative indexes in the wrong order differently when both denote the first
  unit: BITCOUNT selects nothing, BITPOS the first unit (`AskedIsSelectedIff`).
- A pattern of one or more stars does not match the empty string, and one that nests more than 1000 runs of
  stars matches nothing (`MatcherIsExactIff`, `TooDeep`).
- A job that closes a plain file can overtake an fsync of it submitted before (`OrderKeptIff`,
  `CloseFileCanOvertakeFsync`).

The summary comment of ae_evport.c promises that an association is either in the kernel or pending; the
comment in aeDeleteFileEvent foresees removing AE_BARRIER without touching other events. The code does not
meet both, and the model follows the code. The comment before the overflow checks of bitops.c promises -1 for every
underflow; with wrapping the code returns 1, and `UnsignedResult` and `SignedResult` follow the code.

## Model

| member | source | states |
|---|---|---|
| TextExact.SplitArgsJoinIff | valkey-8.0.2/src/sds.c:1054-1149 | tokens without NUL bytes, joined by blanks, are split back into themselves exactly when every token is non-empty, does not start with white space and holds no separator or quote |
| Text.SplitArgsJoin | valkey-8.0.2/src/sds.c:1054-1149 | plain tokens joined by blanks are read back whole and in order |
| TextQuote.QuotedTokens | valkey-8.0.2/src/sds.c:1054-1149 | tokens in double quotes, with any mix of plain characters, backslash escapes and hexadecimal bytes, are split into exactly what their pieces mean |
| TextQuote.QuotedRoundTrip | valkey-8.0.2/src/sds.c:948-979 | strings of any bytes, quoted by sdscatrepr and joined by blanks, are split back into themselves |
| TextQuote.CatRepr | valkey-8.0.2/src/sds.c:954-979 | the loop appends the quoted string |
| TextQuote.EscapedIsPrintable | valkey-8.0.2/src/sds.c:948-979 | every character written for any bytes is printable |
| TextQuote.SingleRoundTripIff | valkey-8.0.2/src/sds.c:1102-1117 | a string written between single quotes, its single quotes escaped, is split back into itself iff it does not end with a backslash |
| AclRuleText.RemoveCommandRule | valkey-8.0.2/src/acl.c:593-635 | the in-place loop with memmove terminates and leaves exactly the text of the surviving rules, single-spaced and NUL-terminated |
| AclRuleText.ExamineRule | valkey-8.0.2/src/acl.c:599-633 | one turn of that loop drops or keeps the rule under the cursor and leaves the cursor at the next rule of a well-formed text |
| AclInvariant.SurvivingExactly | valkey-8.0.2/src/acl.c:590-635 | a rule survives iff its name neither equals the new rule nor continues it with a bar |
| AclCommands.ResolveLogged | valkey-8.0.2/src/acl.c:1130-1215 | every accepted rule is logged under its own name in lower case, and that name resolves to the same effect again |
| AclReplay.SupersededIsCovered | valkey-8.0.2/src/acl.c:590-664 | a rule that removes another from the log writes every permission cell the other one wrote |
| AclReplay.LogAndReplay | valkey-8.0.2/src/acl.c:639-647 | for rules that resolve, replaying the edited log equals replaying the old log and then applying the new rule |
| AclReplay.ReservedBit | valkey-8.0.2/src/acl.c:567-572 | no rule changes the reserved last bit, so it always tells whether the log starts from all ones or all zeros |
| AclInvariant.RuleKeepsFaithful | valkey-8.0.2/src/acl.c:639-664 | an accepted rule whose first-arg, if any, is a plain token keeps bitmap and first-args equal to the replayed log, and the reserved bit as it was |
| AclInvariant.FlagKept | valkey-8.0.2/src/acl.c:579-588 | after an accepted rule the ALLCOMMANDS flag is set only if the reserved bit is and no logged rule denies anything |
| AclEffects.CategoryRule | valkey-8.0.2/src/acl.c:672-685 | an accepted category rule gives its value to the bits of every command flagged with the category, of all its subcommands and of every flagged subcommand, and to no other bit; an unknown category is ENOENT |
| AclEffects.CommandRule | valkey-8.0.2/src/acl.c:651-664 | a rule on a command gives its value to the bit of that command and of all its subcommands, and to no other; first-args of that command only are flushed; an unknown command is ENOENT |
| AclEffects.SubcommandRule | valkey-8.0.2/src/acl.c:1141-1203 | a rule on a subcommand changes the bit of that subcommand only; an empty part is EINVAL, an unknown one ENOENT |
| AclEffects.FirstArgRule | valkey-8.0.2/src/acl.c:1141-1202 | allowing a part of a command without subcommands adds it as first-arg iff it is not there in some letter case, and changes no bit; denying it is ENOENT |
| AclEffects.UnknownRule | valkey-8.0.2/src/acl.c:1141-1202 | a rule on a part of an unknown command is ENOENT |
| AclEffects.PartOfPartRule | valkey-8.0.2/src/acl.c:1141-1202 | a rule with two bars or more is ENOENT, or ECHILD where it would allow a first-arg of a subcommand |
| AclEffects.WordRule | valkey-8.0.2/src/acl.c:1047-1068 | each keyword, in any letter case, sets or clears exactly its flag and list; all and no commands set or clear every bit and forget rules and first-args |
| AclEffects.KeyRule | valkey-8.0.2/src/acl.c:1069-1112 | a key pattern is granted both permissions: added at the end, or joined to the entry with the same text; EEXIST under ALLKEYS, EINVAL for blanks |
| AclEffects.PermissionRule | valkey-8.0.2/src/acl.c:1069-1112 | a pattern after %R, %W, %RW or %WR in any letter case, with or without the tilde, is granted just those permissions |
| AclEffects.BadPermissionRule | valkey-8.0.2/src/acl.c:1069-1101 | any other text after % is an error |
| AclEffects.ChannelRule | valkey-8.0.2/src/acl.c:1113-1129 | a channel is added once, at the end; EISDIR under ALLCHANNELS, EINVAL for blanks |
| AclEffects.OtherOperation | valkey-8.0.2/src/acl.c:1210-1213 | anything that is no keyword and starts with no sign is EINVAL |
| AclDescribe.OperationKeepsValid | valkey-8.0.2/src/acl.c:1046-1215 | every accepted operation whose first-arg, if any, is a plain token keeps the invariant: log compact and replayable to the bitmap and first-args, flag sound |
| AclDescribe.DescribeNeverPanics | valkey-8.0.2/src/acl.c:777-825 | the log splits into its rules, each is accepted by the fake selector, and its bitmap and first-args are those of the real one, so the panic is unreachable |
| AclDescribe.RecomputeForNewTable | valkey-8.0.2/src/acl.c:690-722 | for any new command table in which the rules still resolve, recomputing succeeds, re-establishes the invariant, keeps log, keys and channels, and sets the flag iff the reserved bit is set and no logged rule denies |
| AclDescribe.RecomputeChangesNothing | valkey-8.0.2/src/acl.c:690-722 | for the same table recomputing changes no permission, and the flag can only be gained when all bits are set anyway |
| AclDescribe.FlagMeansAllBits | valkey-8.0.2/src/acl.c:579-588 | whenever the ALLCOMMANDS flag is set, every bit is |
| AclLimits.AcceptedRuleReadsBackIff | valkey-8.0.2/src/acl.c:1130-1215 | after an accepted rule the log reads back exactly when the rule is a plain token |
| AclLimits.BlankInFirstArgIsLost | valkey-8.0.2/src/acl.c:1180-1194 | a first-arg with a blank is accepted and makes recomputing fail |
| AclLimits.FlagIsGained | valkey-8.0.2/src/acl.c:690-722 | after +@all -get +get recomputing sets the flag that was not set |
| AclCommandId.CommandIds.GetCommandID | valkey-8.0.2/src/acl.c:1538-1562 | ids are stable, distinct whatever the letter case of a name, never the reserved bit, and given without gaps |
| AclCommandId.IdsFitIff | valkey-8.0.2/src/acl.c:1538-1562 | all ids are below the reserved bit iff there are at most 1023 names (one less than the bits of the bitmap) |
| AclSelectorObject.SelectorObject.SetCommandBit | valkey-8.0.2/src/acl.c:579-588 | the bit and the flag change as the value function says; ids past the bitmap change nothing |
| AclSelectorObject.SelectorObject.ChangePermissions | valkey-8.0.2/src/acl.c:651-664 | a container brings all its subcommands along and its own first-args are flushed |
| AclSelectorObject.SelectorObject.SetCategory | valkey-8.0.2/src/acl.c:672-685 | the loop over the command table, in whatever order it visits commands, does what CategoryRule states of a category rule |
| AclSelectorObject.SelectorObject.UpdateCommandRules | valkey-8.0.2/src/acl.c:639-647 | the new text is the join of the surviving rules and the new one |
| AclSelectorObject.SelectorObject.AddAllowedFirstArg | valkey-8.0.2/src/acl.c:955-980 | the loop adds a first-arg iff it is not there in any letter case |
| AclSelectorObject.SelectorObject.SetSelectorOp | valkey-8.0.2/src/acl.c:1046-1215 | for operations whose first-arg, if any, is a plain token the update in place equals the value function, with the same errors, an unchanged selector on error, and the invariant kept |
| AclSelectorObject.SelectorObject.DescribeCommandRules | valkey-8.0.2/src/acl.c:777-825 | on a selector with the invariant, running the log on a fake selector meets no assertion, and the description is the base word and the log |
| AclSelectorObject.SelectorObject.RecomputeCommandBits | valkey-8.0.2/src/acl.c:690-722 | in-place recomputation equals the value function and keeps the invariant |
| AclUserInvariant.UserOperationKeepsGood | valkey-8.0.2/src/acl.c:1287-1387 | every accepted user operation whose first-args are plain tokens keeps passwords distinct hashes, opposite flags opposite, and all selectors well formed; what each does is stated in AclUserEffects |
| AclUserInvariant.EveryUserIsGood | valkey-8.0.2/src/acl.c:1287-1387 | every sequence of such operations on a new user, accepted or refused, leaves a well-formed user |
| AclUserEffects.UserWordRule | valkey-8.0.2/src/acl.c:1295-1369 | each user keyword, in any letter case, sets exactly its flags and lists and leaves everything else: resetpass, for one, empties the passwords and clears NOPASS |
| AclUserEffects.ResetRule | valkey-8.0.2/src/acl.c:1370-1380 | reset makes any user the one ACLCreateUser makes |
| AclUserEffects.PasswordAdded | valkey-8.0.2/src/acl.c:1314-1332 | a password or a hash is added at the end unless it is there, and NOPASS is cleared; text that is no hash is EBADMSG |
| AclUserEffects.PasswordRemoved | valkey-8.0.2/src/acl.c:1333-1351 | the first entry with that hash goes and the others stay in order; ENODEV when there is none, EBADMSG for text that is no hash |
| AclUserEffects.SelectorAdded | valkey-8.0.2/src/acl.c:988-1007 | operations in parentheses add one selector at the end, made by running them on a new one, or fail with the error of the first that fails |
| AclUserEffects.UnreadableSelector | valkey-8.0.2/src/acl.c:988-1007 | text with unbalanced quotes in the parentheses adds a selector without permissions |
| AclUserEffects.RootOperation | valkey-8.0.2/src/acl.c:1381-1386 | any other operation is one on the root selector and changes nothing else |
| AclUserEffects.CheckUserCredentials | valkey-8.0.2/src/acl.c:1448-1482 | a user that exists is let in iff it is not disabled and needs no password or the hash is one of its own |
| AclUserEffects.PasswordsTried | valkey-8.0.2/src/acl.c:1295-1482 | which passwords are accepted after each operation on passwords: with resetpass, off or reset none, after a removal all but that one |
| AclRoundTrip.SelectorRoundTrip | valkey-8.0.2/src/acl.c:827-862 | the printed words of a selector rebuild its keys, channels, log, bitmap and first-args exactly when no stored pattern is * with both permissions |
| AclRoundTrip.StarIsLost | valkey-8.0.2/src/acl.c:827-862 | such a pattern comes back as ALLKEYS or makes rereading fail |
| AclUserPrint.PrintSelector | valkey-8.0.2/src/acl.c:827-862 | the loops over patterns and channels print the described text |
| AclUserPrint.PrintUser | valkey-8.0.2/src/acl.c:870-915 | the loops over flags, passwords and selectors print the described line |
| AclUserPrint.SelectorInOrder | valkey-8.0.2/src/acl.c:827-862 | word by word: patterns with their permissions, the channels, the base of the rules and the rules, each in the order in which they are kept |
| AclUserPrint.UserInOrder | valkey-8.0.2/src/acl.c:870-915 | word by word: one of on and off, nopass if set, one sanitizing word, the passwords in order, the root selector, and the others in parentheses |
| AclUserText.MergeSelectorArguments | valkey-8.0.2/src/acl.c:2040-2079 | the loop that joins arguments between parentheses computes the recursive merge, and fails exactly when an argument opens a parenthesis that is never closed, with the index of the first such argument |
| AclUserText.GatheredIff | valkey-8.0.2/src/acl.c:2040-2079 | a list of words printed in parentheses is gathered into one operation again iff no word before the last closes the parenthesis |
| TextExact.WordsShrink | valkey-8.0.2/src/sds.c:1054-1149 | words without white space, joined by blanks and split again into tokens without a blank, come back one for one: a plain word as it is, one with quotes with the same first character and shorter |
| AclUserRoundTrip.UserRoundTrip | valkey-8.0.2/src/acl.c:870-915 | splitting, merging and applying the printed user to a new user gives back user flags, passwords, keys, channels, logs, bitmaps and first-args of all selectors, where the printed line can be reread |
| AclUserRoundTrip.EnclosedWordsIff | valkey-8.0.2/src/acl.c:988-1007 | the printed words of a selector in parentheses come back as those words iff they hold no quote or separator and no word before the last ends in a parenthesis; this and the patterns are what the user round trip asks of such a selector |
| AclUserExact.MergeGathered | valkey-8.0.2/src/acl.c:2040-2079 | merging the words of any printed selector gives first one operation, of the words up to the first that closes the parenthesis, and goes on behind it |
| AclUserExact.ReadBackWeight | valkey-8.0.2/src/acl.c:988-1007 | a selector built from printed words in parentheses holds no more characters of patterns, channels and rules than the words, and fewer if one of them has a quote |
| AclUserExact.SelectorBackIff | valkey-8.0.2/src/acl.c:988-1007 | what is gathered from the printed text of a selector in parentheses rebuilds it iff no stored pattern is * with both permissions, no word holds a quote, and no word before the last ends in a parenthesis |
| AclUserExact.UserRoundTripIff | valkey-8.0.2/src/acl.c:870-915 | for every well-formed user, splitting, merging and applying the printed line to a new user gives the same user iff its root selector has no such pattern and its other selectors come back |
| AofRewriteProofs.StepIsSafe | valkey-8.0.2/src/aof.c:1052-1226 | every state between two system calls of a sound step loses nothing but pending commands in a crash, and the step keeps the invariant; commands keep their databases, flushes are byte writes that may come short, with the offset and the mode of the open file |
| AofRewriteProofs.RunKeepsInv | valkey-8.0.2/src/aof.c:2542-2689 | any run of commands and transactions, flushes, rewrites, kills and clean-ups, with calls that fail or come short and crashes and restarts anywhere, as long as each event is sound, keeps the invariant |
| AofRewriteProofs.RunIsExact | valkey-8.0.2/src/aof.c:699-2689 | over every such run from the first start, loading the files the manifest on disk names succeeds and gives every executed command, in order, once and in its database, but for those not wholly written, and all of them once the buffer is empty |
| AofRewriteProofs.LoadableIffSettles | valkey-8.0.2/src/aof.c:1734-1741 | with a file listed behind the open one, the files load iff the open one ends with whole commands and closed transactions |
| AofRewriteProofs.RestartKeeps | valkey-8.0.2/src/aof.c:699-751 | a restart after a crash loses exactly the pending commands and keeps the invariant where the file can be resumed |
| AofFiles.StartDoes | valkey-8.0.2/src/aof.c:2385-2453 | a rewrite start does nothing while a child runs, and leaves a child with the dataset of that moment iff the new INCR file was opened and listed and fork worked |
| AofFiles.DoneDoes | valkey-8.0.2/src/aof.c:2559-2655 | a finished rewrite whose manifest is written loads the new BASE file, with the child's dataset and format, and the open INCR file, and has all other files as history; otherwise the manifest in memory is as before and the new file is removed if that works |
| AofFiles.DeleteDoes | valkey-8.0.2/src/aof.c:657-679 | the history is forgotten and its files deleted, but for those whose unlink fails; unless it is switched off |
| AofFiles.ChildIsGone | valkey-8.0.2/src/aof.c:2542-2689 | however the child ended, none is running afterwards and the open file is untouched |
| AofFiles.StepTidyIff | valkey-8.0.2/src/aof.c:657-679 | a step, whatever fails in it, leaves no file on disk that neither the manifest names nor the next rewrite replaces iff no unlink of a history file fails and the new BASE file does not pass over one of the other format |
| AofFiles.RunTidyIff | valkey-8.0.2/src/aof.c:657-2655 | from the first start on, over any steps, the disk is so after every one iff every step meets that condition |
| AofFeed.FeedAppendOnlyFile | valkey-8.0.2/src/aof.c:1314-1350 | one call appends the due annotation, a SELECT iff the command has a database that is not the selected one, and the command |
| AofFeed.FeedUnit | valkey-8.0.2/src/server.c:3354-3391 | the loop over the commands of an execution unit appends the records of all of them and leaves the database of the last selected |
| AofFeed.UnitIsFed | valkey-8.0.2/src/aof.c:1330-1336 | replaying what a unit was fed as, from any database the selected one agrees with, does each command of the unit in its own database, and the two agree again afterwards |
| AofStream.PlacedAlikeIff | valkey-8.0.2/src/aof.c:1426-1426 | commands replayed by a new client in database 0 do what they did iff there are none, the first is a SELECT, or they came from database 0 |
| AofStream.Split | valkey-8.0.2/src/aof.c:2398-2400 | where a file ends with whole records and no open MULTI, the rest of the stream is a stream of its own, and does in another file what it did in this one iff it is so movable |
| AofStream.LoadOfStream | valkey-8.0.2/src/aof.c:1463-1615 | any first bytes of a stream load to the commands wholly in them outside an open MULTI, never to a format error, and without truncation iff no command or transaction is cut |
| AofStream.Reopened | valkey-8.0.2/src/aof.c:1580-1602 | what a load leaves of a file after a safe cut is whole records that stand for just what was loaded |
| AofStream.GarbageIsFormatError | valkey-8.0.2/src/aof.c:1487-1488 | anything behind whole records that starts with neither # nor *, zero bytes for one, is a format error, whatever follows: the commands before it were executed and the file is left as it is |
| AofStream.BadCommandIsFormatError | valkey-8.0.2/src/aof.c:1489-1514 | so are a count of zero and something that is no argument, or has a negative length, where an argument should be |
| AofStream.NegativeCountIsFormatError | valkey-8.0.2/src/aof.c:1489-1491 | so is a negative count |
| AofStream.HoleInLengthLine | valkey-8.0.2/src/aof.c:1512-1515 | inside a record a hole can be harmless: a zero byte behind the digits of a length line is skipped |
| AofLimits.FlushIsSafeIff | valkey-8.0.2/src/aof.c:1119-1206 | a flush that does not leave a hole inside a record is exact at every write(2) iff it starts at the end of the file or writes nothing, and behind a stray file every write(2) ends with whole commands and transactions |
| AofLimits.StartIsSafeIff | valkey-8.0.2/src/aof.c:2396-2403 | after a sound flush a rewrite start is exact in all its states iff a file it lists another one behind ends with whole commands and closed transactions, and the records it moves to the new file start with a SELECT or were for database 0 |
| AofLimits.MoveIsSafeIff | valkey-8.0.2/src/aof.c:2398-2403 | when the server goes on with the new file and writes what was left, all commands are loaded again in their databases iff the old file ends with whole records, annotations included, and no open MULTI, and what moved is movable |
| AofLimits.SecondStartIff | valkey-8.0.2/src/aof.c:1580-1743 | a start that fails because the open file is cut and another is listed behind it cuts that file on disk; the next start succeeds, without the cut commands, iff what is left does not end inside a MULTI |
| AofLimits.LoadsIff | valkey-8.0.2/src/aof.c:1640-1761 | for files of any records cut anywhere, the files of a manifest load iff all are there, none holds a whole unknown command, and none but the last ends inside a command or transaction |
| AofLimits.DoneIsSafeIff | valkey-8.0.2/src/aof.c:2559-2655 | a finished rewrite is exact iff no command was late at the fork and the new BASE file is not removed once the manifest names it, or its manifest never reaches the disk |
| AofLimits.RestartResumesIff | valkey-8.0.2/src/aof.c:699-751 | a command executed and written after a restart is loaded again iff the crash left no transaction or annotation cut where the load cannot take it back |
| AofRuns.UnsyncedManifestLosesBase | valkey-8.0.2/src/aof.c:2616-2627 | after a manifest that was renamed but reported as failed, the files load iff the new BASE file could not be removed |
| AofRuns.RepairedWriteIsFatal | valkey-8.0.2/src/aof.c:1165-1180 | in any state with a file opened without append mode, a short write that is truncated away is harmless and the next complete write makes all files unloadable |
| AofRuns.SplitCommandIsFatal | valkey-8.0.2/src/aof.c:1198-1206 | a command or transaction cut by a short write that could not be truncated away, with its rest going to the INCR file of the next rewrite, makes all files unloadable |
| AofRuns.BufferedWriteIsDuplicated | valkey-8.0.2/src/aof.c:2396-2419 | commands still buffered at the fork of a successful rewrite make it inexact |
| AofRuns.HoleRun | valkey-8.0.2/src/aof.c:789-795 | the run from the first start, for every command, every database and every length of the short write |
| AofRuns.SplitRun | valkey-8.0.2/src/aof.c:1198-1206 | the run from the first start, for every command, every database and every place of the cut inside the command or its SELECT |
| AofRuns.DuplicateRun | valkey-8.0.2/src/aof.c:2396-2419 | the run from the first start, for every command and every database |
| AofRuns.SelectRun | valkey-8.0.2/src/aof.c:2396-2403 | the run from the first start in which the second of two commands for the same database, not 0, is still buffered when a rewrite starts: it is loaded into database 0 |
| AofServer.Server.Feed | valkey-8.0.2/src/aof.c:1314-1350 | executing commands and feeding their records and SELECTs to the buffer equals the protocol step and keeps the invariant |
| AofServer.Server.WriteBuffer | valkey-8.0.2/src/aof.c:1014-1031 | the retry loop passes through exactly the states after each write(2) of the protocol and leaves the bytes they took in the file |
| AofServer.Server.FlushFile | valkey-8.0.2/src/aof.c:1119-1226 | the flush with its short-write repair equals the protocol step for every outcome and passes through its states |
| AofServer.Server.StartServer | valkey-8.0.2/src/aof.c:699-751 | a server starts iff the files load; it then is the restarted state, and has the invariant after any crash-safe state that can be resumed; if not, it leaves the disk as the loads left it |
| AofServer.LoadAppendOnlyFiles | valkey-8.0.2/src/aof.c:1640-1761 | the loops over the listed files equal the recursive load: a missing or malformed file is fatal, a truncated one unless it is the last; every file that was read is left cut to what could be loaded of it |
| AofRewriteProofs.HistoryIsNotLoaded | valkey-8.0.2/src/aof.c:657-679 | a history file is never one the manifest on disk loads |
| AofServer.Server.OpenNewIncrAofForAppend | valkey-8.0.2/src/aof.c:773-834 | the in-place step equals the protocol step for every outcome and passes through its states |
| AofServer.Server.RewriteBackground | valkey-8.0.2/src/aof.c:2385-2453 | starting a rewrite in place, with the forgotten SELECT and the forced flush, equals the protocol step for every outcome, passes through its states, reports success iff a child was forked, and keeps the invariant when sound |
| AofServer.Server.MarkRewrittenIncrAofAsHistory | valkey-8.0.2/src/aof.c:489-519 | the backward loop moves all INCR entries but the last to the history, in order |
| AofServer.Server.DelHistoryFiles | valkey-8.0.2/src/aof.c:657-679 | the deletion loop passes through the states of the protocol and removes no file that is still loaded |
| AofServer.Server.RewriteDone | valkey-8.0.2/src/aof.c:2542-2689 | the done handler equals the protocol step for every outcome, passes through its states and keeps the invariant when sound |
| AofFlush.FlushIsConsistentIff | valkey-8.0.2/src/aof.c:1119-1226 | file plus buffer stay the fed stream across a flush iff the write went to the end or nothing of it stayed |
| AofFlush.FlushOffset | valkey-8.0.2/src/aof.c:1141-1181 | a descriptor whose next write goes to the end stays so after a flush, except when a short write was truncated away without append mode |
| AofFlush.TotalIs | valkey-8.0.2/src/aof.c:1014-1031 | interrupts are of no consequence: without an error all bytes are written, and otherwise those taken before the first error |
| AofFlush.WriteStatus | valkey-8.0.2/src/aof.c:1190-1215 | the recorded write status is that of the last write that had something to write |
| AofFlush.RunIsConsistent | valkey-8.0.2/src/aof.c:1014-1226 | with append mode, or while no short write is truncated away, over any mix of complete, short and failed writes file and buffer are the fed stream and the recorded size is the file length |
| AofFlush.RepairLeavesHole | valkey-8.0.2/src/aof.c:1165-1180 | without append mode a repaired short write and the next write leave a hole of zeroes |
| AofFlush.Appender.AofWrite | valkey-8.0.2/src/aof.c:1014-1031 | the retry loop puts a prefix of the data into the file, as long as the answers of write(2) let it, and returns its length or -1 for none |
| AofFlush.Appender.Append | valkey-8.0.2/src/aof.c:1341-1346 | the data goes to the end of the buffer and nothing else changes |
| AofFlush.Appender.FlushBuffer | valkey-8.0.2/src/aof.c:1052-1226 | the in-place flush equals the value function for every outcome |
| AofFormat.CatGenericCommand | valkey-8.0.2/src/aof.c:1262-1285 | the loop appends the serialization of the command |
| AofFormat.DecReadsBack | valkey-8.0.2/src/aof.c:1267-1279 | a printed count is parsed back |
| AofLoad.ReadArguments | valkey-8.0.2/src/aof.c:1501-1530 | the argument loop of the loader equals the recursive parser, error for error |
| AofLoad.LoadSingleFile | valkey-8.0.2/src/aof.c:1463-1637 | the whole loader loop with its offsets and its fake client equals the recursive loader, for well-formed and malformed files, unknown commands, short reads and NUL bytes included |
| AofLoadProofs.RecordRead | valkey-8.0.2/src/aof.c:1463-1560 | a printed record, wherever it stands, is read back with the position behind it |
| AofLoadProofs.RecordCut | valkey-8.0.2/src/aof.c:1463-1600 | a command cut anywhere inside is a short read, never another command or a format error; a cut annotation is taken for an annotation that ends at the end of the file |
| AofCut.LoadOfCutFile | valkey-8.0.2/src/aof.c:1463-1637 | for every list of known commands and annotations and every cut the loader executes the commands wholly before the cut except those in an open MULTI, and leaves the file with whole records only, or uncut behind an annotation |
| AofCut.LoadFailsIff | valkey-8.0.2/src/aof.c:1533-1540 | for every list of commands and annotations, known or not, and every cut, the load fails iff a command wholly before the cut is unknown |
| AofCut.LoadStopsAtUnknown | valkey-8.0.2/src/aof.c:1533-1540 | the file is then left as it is, and the commands executed are those before the first unknown one outside an open MULTI |
| AofCut.ReloadIsTheSame | valkey-8.0.2/src/aof.c:1580-1637 | loading the file that a load left behind executes the same commands |
| AofResume.ResumeIff | valkey-8.0.2/src/aof.c:1542-1615 | a command appended after a load of a cut file is executed by the next load iff the cut was not inside an annotation and left no MULTI open or nested |
| AofResume.AppendedIsExecuted | valkey-8.0.2/src/aof.c:1562-1637 | after such a cut any further records take effect after exactly what the first load executed |
| AofResume.AppendedIsLost | valkey-8.0.2/src/aof.c:1562-1637 | after any other cut the next commands, however many, are not executed |
| Popcounting.TableIsExact | valkey-8.0.2/src/bitops.c:44-51 | each of the 256 table entries is the number of set bits of its index |
| Popcounting.SwarCounts | valkey-8.0.2/src/bitops.c:73-90 | the three masking steps leave in each byte lane of a word the number of set bits of that byte |
| Popcounting.LanesNeverOverflow | valkey-8.0.2/src/bitops.c:87-90 | the lane sums of up to seven words are exact and at most 8 per word, so no lane carries |
| Popcounting.Gather | valkey-8.0.2/src/bitops.c:87-92 | lanes of at most 56 are gathered by the multiplication into an exact total of at most 224 |
| Popcounting.CountSevenWords | valkey-8.0.2/src/bitops.c:61-93 | one 28-byte step counts exactly the set bits of its bytes |
| Popcounting.Popcount | valkey-8.0.2/src/bitops.c:40-98 | for every alignment the result is the plain number of set bits |
| BitRange.ClampSelects | valkey-8.0.2/src/bitops.c:831-835 | converting and clamping the indexes selects exactly the denoted units |
| BitRange.ResolveSpan | valkey-8.0.2/src/bitops.c:830-843 | the byte range and the two edge masks denote exactly the selected bits |
| BitCountCommand.EdgesSubtract | valkey-8.0.2/src/bitops.c:869-879 | subtracting the masked edge bytes is exact, also when both edges are one byte |
| BitCountCommand.AskedIsSelectedIff | valkey-8.0.2/src/bitops.c:825-835 | BITCOUNT is asked about the bits BITPOS searches iff the indexes are not two negative ones in the wrong order at or before the first unit; then it counts nothing where BITPOS searches the first unit |
| BitCountCommand.BitCount | valkey-8.0.2/src/bitops.c:798-882 | BITCOUNT is the number of set bits in the asked range, 0 for a missing key |
| BitSearch.MaskTests | valkey-8.0.2/src/bitops.c:178-186 | the mask shifted k times tests the k-th most significant bit |
| BitSearch.LoadWord | valkey-8.0.2/src/bitops.c:157-165 | the byte loop loads the next eight bytes big-endian, zero-padded behind the end |
| BitSearch.SkipAhead | valkey-8.0.2/src/bitops.c:125-148 | only bytes without the sought bit are skipped, and the next full word, if any, holds it |
| BitSearch.ScanWord | valkey-8.0.2/src/bitops.c:178-191 | a scan of a word that holds the sought bit stops at its first occurrence, so the panic after the loop is unreachable |
| BitSearch.Bitpos | valkey-8.0.2/src/bitops.c:107-192 | for every alignment the result is the least position of the sought bit, -1 for a set bit that is not there, the length for a clear one |
| BitPosCommand.Search | valkey-8.0.2/src/bitops.c:974-1008 | first byte, whole bytes and last byte together find the least position in the range |
| BitPosCommand.BitPos | valkey-8.0.2/src/bitops.c:902-1025 | BITPOS answers with the least position in the selected range, else -1, else just past the string for a clear bit without explicit end |
| BitPosCommand.AnswerIsUnique | valkey-8.0.2/src/bitops.c:902-1025 | at most one reply meets that description |
| BitOpCommand.WordwiseIsBytewise | valkey-8.0.2/src/bitops.c:681-732 | an operation on words in memory is that operation on each of their bytes |
| BitOpCommand.FastPath | valkey-8.0.2/src/bitops.c:676-736 | the unrolled loop leaves in every byte it covers the fold over all sources |
| BitOpCommand.OutputByte | valkey-8.0.2/src/bitops.c:740-762 | the early exit never changes a byte of the fold |
| BitOpCommand.BitOp | valkey-8.0.2/src/bitops.c:633-764 | for any number of keys and lengths the result is as long as the longest source, each byte is the fold of the zero-padded sources, and each bit is set iff all sources, some source, an odd number of them have it, or the only one does not; it is empty iff all sources are |
| BitOpCommand.FoldBit | valkey-8.0.2/src/bitops.c:740-762 | each bit of a byte of the fold is the and, the or, the parity or the negation of the bits of the zero-padded sources |
| BitOpCommand.MaxLenReached | valkey-8.0.2/src/bitops.c:637-663 | the length of the result is the length of some source |
| BitField.SetUnsigned | valkey-8.0.2/src/bitops.c:215-228 | the bit loop stores the low bits of the value in the field and changes nothing else |
| BitField.GetUnsigned | valkey-8.0.2/src/bitops.c:235-247 | the accumulator never overflows and yields the value of the field |
| BitField.ValueOfWrite | valkey-8.0.2/src/bitops.c:215-248 | reading a field after storing v gives v modulo 2^width |
| BitField.WriteFrame | valkey-8.0.2/src/bitops.c:215-228 | no bit outside the field changes |
| BitField.WriteBack | valkey-8.0.2/src/bitops.c:215-248 | storing what a field holds changes nothing |
| BitField.FieldIsByte | valkey-8.0.2/src/bitops.c:235-247 | an aligned field of eight bits is its byte, the first bit being the most significant |
| BitFieldCommand.GetSigned | valkey-8.0.2/src/bitops.c:249-271 | propagating the sign bit gives the two's complement value of the field |
| BitFieldCommand.WindowSuffices | valkey-8.0.2/src/bitops.c:1228-1255 | nine zero-padded bytes hold every field of up to 64 bits at any offset |
| BitFieldCommand.SetThenGet | valkey-8.0.2/src/bitops.c:1156-1224 | what an operation stores reads back as a typed integer, and other bits keep their value |
| BitFieldCommand.StepReply | valkey-8.0.2/src/bitops.c:1156-1257 | GET and SET answer what the field held and INCRBY what it holds then; the null reply is given iff the exact value does not fit and OVERFLOW FAIL is in force, and then nothing is written |
| BitFieldCommand.BitFieldGeneric | valkey-8.0.2/src/bitops.c:1130-1264 | any list of operations gives the replies and the bits of running them one by one on an endless zero-extended bitmap, on a string of exactly the needed length; the changes reported are the writes that changed the bitmap, or all that were not refused once the string grew; without a reported change the bits are as before, and the stored string differs iff it was created or lengthened and every write was refused |
| BitFieldCommand.Enlarge | valkey-8.0.2/src/bitops.c:481-498 | growing a string, or creating it, adds no set bit and makes room for the highest bit; a change is reported iff the string is new or too short, and otherwise it is the stored string |
| BitFieldCommand.StoredAsPromisedIff | valkey-8.0.2/src/bitops.c:1169-1218 | what is stored is the exact result, wrapped, saturated or refused as asked, iff the operation is not a misdirected saturating SET |
| BitFieldCommand.RunsAsPromised | valkey-8.0.2/src/bitops.c:1156-1257 | a list without such an operation runs as with exact integers throughout |
| BitOverflow.UnsignedIsExact | valkey-8.0.2/src/bitops.c:296-330 | for a value that fits, the check is non-zero iff value plus increment leaves the range, and its limit is the wrapped or nearest value |
| BitOverflow.UnsignedSetIsExact | valkey-8.0.2/src/bitops.c:296-330 | the same for any stored 64-bit value |
| BitOverflow.SignedIsExact | valkey-8.0.2/src/bitops.c:332-383 | the same for signed fields of up to 64 bits |
| BitOverflow.UnsignedResult | valkey-8.0.2/src/bitops.c:296-330 | for a value that fits, the check returns 0 iff the exact result fits, and else 1, or -1 for an underflow that is not wrapped |
| BitOverflow.SignedResult | valkey-8.0.2/src/bitops.c:332-383 | the same for signed fields |
| BitOverflow.SignedSetIsExactIff | valkey-8.0.2/src/bitops.c:332-383 | a signed SET is checked exactly iff it does not saturate from a value whose distance to the maximum overflows, and then the maximum is stored instead of the minimum |
| BitOverflow.SaturatesToTheWrongBound | valkey-8.0.2/src/bitops.c:340-351 | a signed byte saturated from the most negative value becomes 127 |
| BitOverflow.WrapIsTheCongruentValue | valkey-8.0.2/src/bitops.c:322-382 | wrapping gives the one value of the type congruent modulo 2^width |
| Blocking.AddKeyKeeps | valkey-8.0.2/src/blocked.c:382-413 | blocking on one more key keeps client tables, lists and wakeup counts in agreement |
| Blocking.ReleaseKeeps | valkey-8.0.2/src/blocked.c:515-547 | so does releasing any of a client's keys, in any order |
| Blocking.ListedExactlyOnce | valkey-8.0.2/src/blocked.c:372-439 | a client is in the list of a key exactly once if the key is in its table and otherwise not at all |
| BlockedState.BlockKeepsInv | valkey-8.0.2/src/blocked.c:372-422 | blocking keeps indexes, counters and the ready queue consistent |
| BlockedState.UnblockKeepsInv | valkey-8.0.2/src/blocked.c:188-228 | unblocking does too, on timeout, error or a ready key |
| BlockedState.SignalKeepsInv | valkey-8.0.2/src/blocked.c:458-502 | signalling keeps exactly one queue entry per ready key |
| BlockedState.SignalReachesWaiters | valkey-8.0.2/src/blocked.c:458-502 | the quick returns never drop a key that a matching client waits on |
| BlockedEffects.BlockedTypeIs | valkey-8.0.2/src/blocked.c:441-449 | of the object types modelled only lists, sorted sets and streams can be waited for, each by its own kind |
| BlockedEffects.BlockDoes | valkey-8.0.2/src/blocked.c:372-422 | the client stands once at the end of the list of each of its keys, repeated or not, and nothing else changes |
| BlockedEffects.UnblockDoes | valkey-8.0.2/src/blocked.c:188-228 | the client is gone from every list and all others keep their places |
| BlockedEffects.SignalDoes | valkey-8.0.2/src/blocked.c:458-502 | the key is queued at the end iff it is not yet and somebody waits on it, for any change or for deletions as the signal is, and some client is blocked on the type |
| BlockedEffects.ServeDoes | valkey-8.0.2/src/blocked.c:632-670 | the client leaves all keys, its command's signals reach those still waiting, and if it blocks again it stands at the end of the new lists |
| BlockedState.DeletionReachesOtherKindsIff | valkey-8.0.2/src/blocked.c:458-481 | a deletion of another type reaches a client waiting for it iff that type blocks somebody or the key is signalled already |
| BlockedServer.Server.BlockForKeys | valkey-8.0.2/src/blocked.c:372-422 | the key loop, which skips repeated keys, equals the transition |
| BlockedServer.Server.ReleaseBlockedEntry | valkey-8.0.2/src/blocked.c:515-547 | unlinking one entry updates list, dictionary and count as the transition says and meets no assertion |
| BlockedServer.Server.UnblockClientWaitingData | valkey-8.0.2/src/blocked.c:426-439 | releasing the entries in any order and emptying the table equals releasing them together |
| BlockedServer.Server.UnblockOnTimeoutOrError | valkey-8.0.2/src/blocked.c:700-716 | the client leaves all lists and counters |
| BlockedServer.Server.LeaveAllKeys | valkey-8.0.2/src/blocked.c:632-646 | releasing the ready key first and then the rest is the same transition |
| BlockedServer.Server.SignalKeyAsReady | valkey-8.0.2/src/blocked.c:458-502 | the in-place operation equals the transition |
| Serving.UnblockClientOnKey | valkey-8.0.2/src/blocked.c:632-670 | leaving all keys and running the command again, which may signal keys and block again, equals serving the client once |
| Serving.HandleClientsBlockedOnKey | valkey-8.0.2/src/blocked.c:560-593 | whatever the served commands do, the iterator loop equals one pass over the initial waiters, each visited once in arrival order, keeps the invariant, and ends; PassLooks states who is served in a pass |
| Serving.WaitersDiffer | valkey-8.0.2/src/blocked.c:560-593 | the waiters of a pass are different clients |
| Serving.HandleClientsBlockedOnKeys | valkey-8.0.2/src/blocked.c:321-363 | list after list is worked off key by key, and it ends by itself iff no key is ready any more |
| Serving.RoundsGoOn | valkey-8.0.2/src/blocked.c:321-363 | as long as keys are ready after some lists, the next list is taken and worked off |
| Waking.PassLooks | valkey-8.0.2/src/blocked.c:560-593 | in a pass each waiter is looked at once, in order: one whose type the key holds then, or who wants deletions, leaves all its keys and its command runs once; any other changes nothing |
| Waking.WorkOffTurns | valkey-8.0.2/src/blocked.c:321-363 | working off a list takes its keys in order and looks at all that wait on each by then |
| Waking.WorkedKeeps | valkey-8.0.2/src/blocked.c:321-593 | a client that never fits when it is looked at keeps all its keys and its place before later comers |
| Waking.ReadyIsServed | valkey-8.0.2/src/blocked.c:321-593 | a client that waits on a ready key and fits when it is reached there is served, there or before |
| Waking.SignalledWaiterIsVisited | valkey-8.0.2/src/blocked.c:321-593 | from the signal to the visit: whoever waits on a key is looked at when the ready keys are worked off after a signal that somebody on the key wants, whatever the commands served before do |
| Waking.SignalledWaiterIsServed | valkey-8.0.2/src/blocked.c:321-593 | from the signal on: such a client is served if the key holds its type when it is reached, or it wants deletions |
| Waking.SteadyKeyIsServed | valkey-8.0.2/src/blocked.c:321-593 | where no served command changes the type of the key, a client that waits for that type is served after the signal |
| Serving.EveryRunIsConsistent | valkey-8.0.2/src/blocked.c:188-670 | after every run of blocking, leaving, signalling and serving: exactly-once lists, no empty list, wakeup counts, the total and the counters per type, and one queue entry per ready key |
| Evport.CreateKeepsInvIff | valkey-8.0.2/src/ae_evport.c:147-174 | a create keeps the either/or association iff it leaves the descriptor with an event |
| Evport.DeleteKeepsInvIff | valkey-8.0.2/src/ae_evport.c:176-229 | a delete never aborts and keeps it iff it does not take AE_BARRIER, by name or along with AE_WRITABLE, and no registered event with it |
| Evport.PollKeepsInv | valkey-8.0.2/src/ae_evport.c:231-295 | a poll keeps it, whatever associated or pending descriptors fire |
| Evport.CreateDoes | valkey-8.0.2/src/ae.c:185-207 | a create adds the given events to those of its descriptor, touches no other, and keeps the largest descriptor; it fails out of range and when a needed association is refused |
| Evport.DeleteDoes | valkey-8.0.2/src/ae.c:209-244 | a delete clears the given events of its descriptor, AE_BARRIER also with AE_WRITABLE, touches no other, and finds the largest descriptor again |
| Evport.PollDoes | valkey-8.0.2/src/ae_evport.c:231-295 | after a poll the fired descriptors are pending and all other registered ones associated, each with its mask |
| Evport.EveryRunIsEitherOr | valkey-8.0.2/src/ae_evport.c:59-63 | after every run in which no create leaves a descriptor without an event and no delete removes AE_BARRIER alone, each descriptor is associated or pending, never both, with exactly its mask, and neither without one |
| Evport.BarrierAloneLeavesAGhost | valkey-8.0.2/src/ae.c:236-243 | a run with a lone AE_BARRIER removal after which a descriptor without events is associated again |
| EvportLoop.EventLoop.LookupPending | valkey-8.0.2/src/ae_evport.c:111-119 | the loop finds the entry of a pending descriptor iff there is one |
| EvportLoop.EventLoop.CreateFileEvent | valkey-8.0.2/src/ae.c:185-207 | the in-place create equals the transition, failures included |
| EvportLoop.EventLoop.DeleteFileEvent | valkey-8.0.2/src/ae.c:209-244 | the in-place delete with its downward scan equals the transition that DeleteDoes describes |
| EvportLoop.EventLoop.Poll | valkey-8.0.2/src/ae_evport.c:231-295 | both loops over the pending arrays equal the transition |
| Bio.JobsFinishInOrder | valkey-8.0.2/src/bio.c:206-293 | under every interleaving the jobs of a worker finish in submission order and each counter counts the queued jobs of its type, the running one included |
| Bio.DrainedMeansDone | valkey-8.0.2/src/bio.c:307-315 | when a queue is seen empty every job submitted before is finished |
| Bio.OrderKeptIff | valkey-8.0.2/src/bio.c:75-80 | for any two types of jobs, a later job is never done before an earlier one on any run iff the table gives both types to one worker |
| Bio.SameWorkerKeepsOrder | valkey-8.0.2/src/bio.c:228-293 | on every run, when a job is done every job submitted before it to the same worker was done before it |
| Bio.AofClosedAfterItsFsyncs | valkey-8.0.2/src/bio.c:75-80 | on every run, when a job that closes an AOF descriptor is done, every fsync of that descriptor submitted before it was done before it |
| Bio.CloseFileCanOvertakeFsync | valkey-8.0.2/src/bio.c:75-80 | a run in which a plain close job, of another worker, is done while an earlier fsync of the descriptor is not |
| Bio.WorkersAreShared | valkey-8.0.2/src/bio.c:75-80 | two types of jobs share a worker iff they are the same or the two on AOF descriptors |
| Bio.TurnFinishesOldest | valkey-8.0.2/src/bio.c:228-293 | wherever a worker stands, a turn of its loop finishes the oldest job, takes it out of the pending count, and changes no other worker |
| Bio.TurnsDrain | valkey-8.0.2/src/bio.c:228-293 | as many turns as jobs are queued finish all jobs submitted, in order, and leave none pending of the types the worker serves |
| BioQueues.Queues.SubmitJob | valkey-8.0.2/src/bio.c:153-161 | the critical section equals the step |
| BioQueues.Queues.FinishJob | valkey-8.0.2/src/bio.c:288-291 | the critical section equals the step |
| BioQueues.Queues.PendingJobsOfType | valkey-8.0.2/src/bio.c:296-304 | the counter is the number of queued jobs of the type |
| BioQueues.Queues.DrainWorker | valkey-8.0.2/src/bio.c:307-315 | the waiting loop returns iff the queue is empty at some moment of the run, and then every job submitted before the call is finished |
| Glob.Agrees | valkey-8.0.2/src/util.c:68-92 | within the nesting limit the matcher with its shortcut agrees with the one without, and where the shortcut flag is set the rest of the pattern matches no later part of the string, so no earlier star need be extended |
| Glob.TooDeep | valkey-8.0.2/src/util.c:65-75 | a pattern with more runs of stars, the last one at its end aside, than levels are left matches nothing |
| GlobMeaning.MatcherIsExactIff | valkey-8.0.2/src/util.c:57-188 | for every pattern and every string, the matcher finds a match iff the pattern as a list of elements means the string, is not stars alone tried on the empty string, and nests at most 1000 runs of stars |
| GlobMeaning.HeadTakes | valkey-8.0.2/src/util.c:96-170 | one element of a pattern, with classes, ranges, negation and escapes, takes exactly the characters it means, and the pattern goes on behind it |
| Glob.PlainMatchesOnlyItself | valkey-8.0.2/src/util.c:160-180 | a pattern without special characters matches itself only |
| HashSlot.KeyHashSlot | valkey-8.0.2/src/cluster.c:52-71 | the two scans hash the tag between the first opening brace and the next closing one, if it is not empty, else the whole key; the slot is the low 14 bits of the checksum |
| HashSlot.PatternHashSlot | valkey-8.0.2/src/cluster.c:76-101 | every key the pattern can match has the slot returned, which is that of the pattern taken as a key, and none is returned iff a special character comes before a closed tag |

## Left out

- OperationKeepsValid: a rule with a first-arg must be a plain token, because the log cannot be read back otherwise; `AcceptedRuleReadsBackIff` shows that this is the exact limit.
- RuleKeepsFaithful: the same limit on first-args.
- SetSelectorOp: the same limit on first-args.
- UserOperationKeepsGood: the same limit on first-args.
- EveryUserIsGood: the same limit on first-args.
- SelectorRoundTrip: does not compare the ALLCOMMANDS flag, because rereading can gain it (`FlagIsGained`).
- UserRoundTrip: one direction; `UserRoundTripIff` adds the other. Neither compares the ALLCOMMANDS flag.
- User records are modelled on values, not as objects; sharing of users between connections is not captured.
- The bits of a command bitmap are one Boolean each; packing into 64-bit words is not modelled.
- RunTidyIff: is about whole steps; files left by a crash in the middle of one are left out.
- Passwords are opaque hashes; SHA-256, crc16, crc64 and RDB payloads are not interpreted.
- The command table is a parameter; what its ids and names guarantee is stated as its validity.
- ACL files, ACL SAVE, ACL LOG, and permission checks on keys and channels are not part of this model.
- StepIsSafe: is stated for sound steps; `FlushIsSafeIff`, `StartIsSafeIff`, `MoveIsSafeIff` and `DoneIsSafeIff` show that soundness is the exact condition of each step.
- RunIsExact: is stated for runs of sound steps whose crashes leave a file that can be resumed; `RestartResumesIff` shows the latter is exact.
- FlushIsSafeIff: leaves out writes behind the end of a file that ends inside a record, because such a hole can be harmless (`HoleInLengthLine`).
- MoveIsSafeIff: is stated for the timestamp annotations that the server writes; the rest of another one could by its text be a record of its own.
- RewriteBackground: models rewrites while the AOF is on; AOF off, waiting for a rewrite and the upgrade from the old layout are left out.
- A BASE file is the dataset it was written from; its encoding is not modelled.
- The text of the manifest file is left out: a manifest is its list of files, and replacing it is one step that may fail before or after the rename.
- Durability of fsync and the offsets of WAITAOF are left out; a write that returned is taken to be in the file.
- FlushBuffer: the fsync policy `always`, which exits the server on a write error, is left out; postponing is a parameter.
- RunIsConsistent: needs append mode or no truncated short write; `FlushIsConsistentIff` and `RepairLeavesHole` give the exact limit.
- LoadSingleFile: loads one file without an RDB preamble, with aof-load-truncated on, and with counts that fit the machine types; a negative length, on which the allocation fails, is a format error.
- UnitIsFed: is stated for database numbers below 2^31; a SELECT of a database that the replaying server does not have is left out.
- LoadOfCutFile: is stated for known commands; `LoadFailsIff` and `LoadStopsAtUnknown` are about the others.
- BitOp: wrong types and the parsing of arguments are left out; words are loaded least significant byte first.
- BitCount: wrong types and the parsing of arguments are left out.
- BitPos: wrong types and the parsing of arguments are left out.
- BitFieldGeneric: takes parsed operations, with widths up to 63 bits unsigned and 64 signed as the parser admits them.
- UnsignedIsExact: the masks of the overflow checks are written as arithmetic modulo 2^64.
- Blocked module clients, WAIT, CLIENT PAUSE and shutdown blocking, the timeout table and the list of unblocked clients would only add easy members.
- HandleClientsBlockedOnKeys: stops after a given number of lists, because commands that keep signalling keys can keep the original going for ever.
- EveryRunIsEitherOr: is stated for runs of sound calls; `CreateKeepsInvIff` and `DeleteKeepsInvIff` show that this is exact.
- Poll: port_getn is taken to return associated descriptors, each at most once; the translation of its events into reported masks is left out, and so is a failing association while polling, which aborts the server.
- DrainWorker: is given the steps of the other threads; which waiting thread a signal wakes is left out.
- HeadTakes: orders the characters of a class range by their unsigned value; where char is signed, a range with one end at or above 0x80 differs.
- The matcher's loops are written as recursion on values, case-sensitively; the case-insensitive variant is left out.
- Everything else of the server (networking, replication, scripting, clustering, the data types, configuration) is not part of this model.
