# tenantguard: a verified model

tenantguard captures the SQL an application sends to PostgreSQL, re-executes every statement twice on a
copy of the database (once unrestricted, once under row-level security with the tenant the statement
claims) and reports SAFE, LEAK or UNATTRIBUTABLE. This project models the parts that decide whether such
a report can be believed, in Dafny, and proves what they promise:

| file | what it models |
|---|---|
| `Text`, `Parens`, `Quoting`, `WithClause`, `Writing`, `WithRendering` | the hand-written scanners: matching parentheses, top-level commas, the two walkers over leading WITH clauses; and how SQL is written, character by character, with the printed statement trees they are checked against |
| `Attribution`, `AttributionFacts`, `Tier2`, `Policy` | which tenant a statement claims, and the runtime decision built on it |
| `Cells`, `ResultRows`, `RowDiff`, `Rls` | the rendering and multiset comparison of two results, and queries over a database with a row-level policy |
| `Conflict`, `WriteReplay`, `InsertVerdict` | the savepoint, delete and retry loop inside a transaction that is always rolled back, and the verdicts on writes |
| `Differ`, `Population`, `Audit`, `Accounting` | one verdict, the loop over all captured executions, the populations, the rates and the ceiling |
| `Wire`, `Messages`, `Oid`, `Session`, `CapturedMessages`, `Interleaving`, `Connection` | the capture side: framing, the extended-query messages, binary decoding, the per-connection state machine, what each message does from its bytes on, both directions interleaved message by message, and the reads of a whole connection |
| `Oracle`, `Canary`, `SampleLiterals`, `Gate` | the controls A1 and A4 as facts about an arbitrary policy, the plan of the two canary rows, and the gate in front of the differ |
| `ArrayLiteral` | the decoder of PostgreSQL array literals |

Conventions. Objects the program updates in place are classes (`Wire.Framer`, `Session.Session`,
`WriteReplay.Tx`); each of their methods is tied to a function on values, and the theorems are about those
functions. PostgreSQL is an explicit environment: a table under a unique key with a savepoint stack and an
aborted flag, rows with a tenant column, errors as data. A policy is an arbitrary predicate on a row's
contents. What a regular expression finds in a statement is part of the statement (`Attribution.Sql`).

The `dfyconfig.toml` beside this file makes `dafny verify dfyconfig.toml` check the whole project.

## What the model shows beyond the expected

- Framing does not depend on how the stream is split into reads exactly when a malformed length, if there is
  one, has only an unfinished frame behind it (`Wire.ChunkInvarianceExact`); `Wire.MalformedSplitMatters` is a
  stream where it does.
- A conflicting row of another tenant does not always make an INSERT unattributable: hidden behind a later
  conflict of the claimed tenant's own it can give a LEAK (`InsertVerdict.ForeignConflictCanLeak`), in exactly
  the cases of `InsertVerdict.ForeignConflictExact`.
- `maxConflictRetries` is 3, and its comment counts deletions; the loop recovers from at most two, because the
  third deletion is never followed by another attempt (`InsertVerdict.ReplayInsert`). The model follows the code.
- A DELETE is SAFE whatever it reaches, since affected counts are not compared
  (`InsertVerdict.DeleteAlwaysSafe`).
- Two different results can compare equal when a value holds the separator byte
  (`RowDiff.SeparatorHidesDifference`). A row is told apart from every other row of its width exactly when none of
  its values holds the separator or no two of its values stand side by side (`ResultRows.TextIdentifies`), and the
  comparison with a result is exact, whatever the other result, exactly when all its rows are like that
  (`RowDiff.ComparisonExact`); one such result of the two is enough (`RowDiff.CleanReadVerdict`).
- A foreign row can stand in for an own one in control A4 (`Oracle.SeparatorHidesWrongRow`). On distinct rows a pass
  means, for every policy, that it admits exactly the tenant's rows exactly when no own row shares its key text with
  a foreign one (`Oracle.A4Decides`).
- The walkers over WITH lists stop inside a quoted name with a doubled quote and inside a bare name with a `$` or a
  letter beyond ASCII, all valid in PostgreSQL. A write in or behind such a CTE is not seen
  (`WithRendering.DoubledQuoteHides`, `WithRendering.UnreadableHides`). Nor is one in a list whose first CTE is named
  RECURSIVE, which is no reserved word: the name is skipped as the keyword (`WithRendering.RecursiveNameHides`,
  `WithRendering.RecursiveHides`). The walk sees exactly what stands in front of the first such name, so it never
  finds a write that is not there, and it is exact where every name is read whole, as a name
  (`WithRendering.RenderedWrite`).
- Behind a comment between two CTEs the walkers see nothing either (`WithRendering.CommentHides`); comments are
  only dropped in front of a statement.
- A unique conflict is recovered from the error text exactly for the keys of `Conflict.RecoverableExact`. Not
  recovered are values with a line break, with `)=(`, with a comma and a blank, with blanks around them, and columns
  the server prints in quotes (`Conflict.Unrecovered`); the comment at the pattern speaks of the comma only.
- An UPDATE is SAFE whatever foreign rows it changes, and a LEAK exactly when it would move an own row to another
  tenant (`InsertVerdict.UpdateVerdict`).
- After replies that overtook their Describe, each further reply is recorded under the name that many places earlier
  (`Interleaving.QueueShift`, `Interleaving.ReplyShifted`).
- A `timestamp(3)` or `time(0)` column gets no sample value, because the parenthesised modifier is cut together
  with the words behind it (`Canary.PrecisionUnknown`); the comment on `baseType` speaks of the modifier only.
- The comment on the structural-only population says that every relation the statement references is
  structural-only; the code asks for one such relation and no row-level one. The model follows the code.
- Relations are matched to skipped ones by `schema.name` joined with a dot, so two relations can share a name
  (`Gate.DottedNamesCollide`). The split follows each relation's own seeding exactly when no seeded and unseeded
  scoped relation do (`Gate.SplitFollowsSeeding`); otherwise the error is on the safe side (`Gate.GatePartition`).

## Model

| member | source | states |
|---|---|---|
| `Parens.CloseIndexExact` | internal/differ/extract.go:340-350 | the scan stops at the unique first place where the parenthesis depth reaches zero, and fails exactly when it never does |
| `Parens.CloseIndexBalanced` | internal/differ/extract.go:325-351 | a balanced text between parentheses is cut out whole, whatever follows |
| `Parens.BalancedParenSpan` | internal/differ/extract.go:334-351 | the loop returns the text up to the matching parenthesis and the index behind it, or fails exactly when the index is out of range, not at a parenthesis, or unmatched |
| `Parens.JoinSplit` | internal/differ/extract.go:433-452 | joining the pieces with commas gives the text back, for every text |
| `Parens.SplitJoin` | internal/differ/extract.go:433-452 | splitting a comma-joined list of pieces (net depth zero, no comma at depth zero) gives the list back |
| `Parens.SplitTopLevel` | internal/differ/extract.go:433-452 | the depth-counting loop computes that splitting |
| `WithClause.SkipWithClause` | internal/differ/differ.go:579-643 | the walk over a WITH list ends where the list ends, on malformed text too, and says whether a body on the way contains a write |
| `WithClause.StatementContainsWrite` | internal/differ/differ.go:551-559 | mutual recursion with the walk; terminates by text length, then remaining length |
| `WithClause.IsWriteStatement` | internal/differ/differ.go:535-546 | the write test behind any leading comment lines |
| `WithClause.CollectCteNames` | internal/differ/tier2.go:206-269 | the second walker takes the same walk, name by name and body by body, to the same stopping text, and collects the declared names at all leading nesting levels |
| `WithClause.CteNames` | internal/differ/tier2.go:188-200 | the same behind leading comment lines, nothing when a comment never ends |
| `WithClause.WalkersAgree` | internal/differ/tier2.go:188-269 | the collected names are exactly the keys of the names on the write detector's walk and those declared inside its bodies, on every text, well formed or not |
| `WithRendering.RenderedWrite` | internal/differ/differ.go:535-699 | for every tree of nested CTE lists, keywords in any case and any spaces, tabs and line breaks between tokens, the printed text is a write for the detector exactly when a body or primary statement in front of every unreadable name is an INSERT, UPDATE or DELETE, or, where a list starts with the name RECURSIVE, its primary statement behind a lone plain CTE is; so only when the tree writes, and exactly then when every name is read whole, as a name |
| `WithRendering.RenderedNames` | internal/differ/tier2.go:188-269 | for every such tree the collected names are the lower-cased ones in front of every unreadable name and the read part of the first of those, and at most the word as of a list starting with the name RECURSIVE; all declared at the leading lists when every name is read whole, as a name |
| `WithRendering.CommentedStatement` | internal/differ/differ.go:535-546 | comment lines and blanks around the statement change neither |
| `WithRendering.UnreadableHides` | internal/differ/differ.go:579-681 | behind an unreadable first name no write is seen, whatever the statement does |
| `WithRendering.DoubledQuoteHides` | internal/differ/differ.go:656-676 | a data-modifying CTE under a quoted name with a doubled quote, not seen to write |
| `WithRendering.RecursiveHides` | internal/differ/differ.go:579-643 | in a list whose first CTE is named RECURSIVE no write is seen but a primary one behind a lone plain CTE |
| `WithRendering.RecursiveNameHides` | internal/differ/differ.go:583-590 | a data-modifying CTE named recursive, not seen to write |
| `WithRendering.UnclosedQuote` | internal/differ/differ.go:660-681 | a quoted name that is never closed runs to the end of the text: it alone is collected, and the walk finds no body and no primary statement |
| `WithRendering.CommentHides` | internal/differ/differ.go:592-643 | a list whose first CTE is followed by a comma and a comment is a write exactly when that CTE's body is, whatever stands behind |
| `Attribution.ExtractTenant` | internal/differ/extract.go:210-295 | the loops compute the claim: unknown parameters first, then the INSERT path, then the comparisons |
| `Attribution.ExtractFromInsert` | internal/differ/extract.go:357-427 | the INSERT path, with its fall-through cases |
| `AttributionFacts.ComparisonMeaning` | internal/differ/extract.go:224-294 | off the INSERT path a value is claimed exactly when every comparison with a named scoped relation's tenant column is no subquery and no parameter out of range, some is a parameter and all parameters have this value; no tenant exactly when a scoped relation is named and no comparison is either |
| `AttributionFacts.FallsThrough` | internal/differ/extract.go:357-392 | the comparisons decide exactly when there is no INSERT head, no scoped relation of its name, or one of the two lists is missing or never closes |
| `AttributionFacts.UnknownParameter` | internal/differ/extract.go:210-222 | one parameter neither known nor NULL leaves the statement without a claim |
| `AttributionFacts.InsertClaim` | internal/differ/extract.go:357-427 | for every printed INSERT the claim is decided by the column and value lists, and a list mismatch is unattributable |
| `AttributionFacts.InsertPosition` | internal/differ/extract.go:395-426 | the value at the first column whose name, case and blanks aside, is the tenant column decides: parameter n claims the text of the n-th parameter, one out of range and a value in parentheses cannot be claimed, anything else names no tenant |
| `AttributionFacts.PolicyOrderIrrelevant` | internal/differ/extract.go:224-294 | policies listing the same relations with distinct names give the same claim in any order |
| `Policy.KeyFolded` | internal/differ/extract.go:365 | a relation goes by its name in small letters |
| `Tier2.ResolveReferences` | internal/differ/tier2.go:137-170 | the walk over the referenced names, in any order, is blocked exactly when some name is unknown or unclassifiable |
| `Tier2.CheckTenant` | internal/differ/tier2.go:44-97 | the decision computed from references and claim |
| `Tier2.CheckTenantSafe` | internal/differ/tier2.go:44-97 | SAFE exactly when every relation used, the statement's own CTEs aside, is declared scoped or unscoped, and none is scoped or the claim is the request's tenant |
| `Tier2.CheckTenantLeak` | internal/differ/tier2.go:44-97 | LEAK exactly when all are so declared, one is scoped, and the claim is no tenant or another one, under which it is reported; the rest is unattributable |
| `Tier2.ClassOfLast` | internal/differ/tier2.go:137-170 | a name's class is that of the last relation of this name, and it has none exactly when no relation has the name |
| `Tier2.DecisionOrderIrrelevant` | internal/differ/tier2.go:44-170 | the decision does not depend on the order of the policy |
| `Cells.RowTextInjective` | internal/differ/differ.go:474-482 | rows of one width without separator and NULL mark render to one text only when they are the same row |
| `ResultRows.TextIdentifies` | internal/differ/differ.go:474-482 | a stored row has its text to itself among the stored rows of its width exactly when no value holds the separator or no two values stand side by side |
| `RowDiff.CollectRows` | internal/differ/differ.go:460-487 | every row rendered once, in ascending order |
| `RowDiff.MultisetShortfall` | internal/differ/differ.go:492-506 | the counting loop computes the size of the multiset difference |
| `RowDiff.DiffRead` | internal/differ/differ.go:97-125 | the verdict on a read from the two results |
| `RowDiff.ReadVerdictExact` | internal/differ/differ.go:108-124 | SAFE exactly when the two results are the same multiset; vacuous exactly when both are empty; a LEAK withholds something |
| `RowDiff.WithheldExact` | internal/differ/differ.go:108-122 | when the restricted result is part of the unrestricted one, the withheld count is exactly the difference in size |
| `RowDiff.CleanReadVerdict` | internal/differ/differ.go:97-125 | for stored rows of one width, one of the two results unmistakable: SAFE exactly when both hold the same rows equally often |
| `RowDiff.ComparisonExact` | internal/differ/differ.go:97-125 | the comparison with a result is exact, whatever the other one, exactly when each of its rows has no value holding the separator or no two values side by side |
| `RowDiff.SeparatorHidesDifference` | internal/differ/differ.go:474-482 | two concrete results that differ and compare equal |
| `Rls.RestrictedResult` | internal/oracle/oracle.go:121-140 | under the policy every select, project, product and union-all query returns exactly the derivations that read only the tenant's rows and unscoped tables |
| `Rls.ReadVerdictMeaning` | internal/differ/differ.go:97-125 | for every database, tenant and query: SAFE exactly when no result was derived from a foreign row, otherwise a LEAK of exactly as many rows as were; vacuous exactly when the query returns nothing |
| `Rls.NoTenantClaimed` | internal/differ/differ.go:178-207 | with the empty setting a derivation survives exactly when it reads no scoped row |
| `Conflict.SplitInvertsList` | internal/differ/differ.go:248-257 | splitting a list joined with comma and blank gives its parts back when none holds that separator |
| `Conflict.RecoverableExact` | internal/differ/differ.go:222-283 | a key comes back from the detail line exactly when its columns print unquoted and its values are free of the list separator, of line breaks and of what ends the columns, have no blanks around them, and are not the single empty value |
| `Conflict.Unrecovered` | internal/differ/differ.go:235-246 | a value with a line break, a value with `)=(` and a quoted column do not come back |
| `WriteReplay.RetryLoop` | internal/differ/differ.go:357-395 | the loop computes the statement on the table without the rows removed so far, and while aborted issues only rollbacks |
| `WriteReplay.ExecRolledBack` | internal/differ/differ.go:350-396 | the same in a transaction that ends in a rollback and changes nothing durable |
| `WriteReplay.ExecRolledBackAsTenant` | internal/differ/differ.go:405-454 | the restricted leg removes the known conflict if the policy shows it, runs the statement, and changes nothing durable |
| `WriteReplay.DiffWrite` | internal/differ/differ.go:731-759 | the verdict on a write; durable state unchanged |
| `WriteReplay.WriteVerdictCases` | internal/differ/differ.go:731-768 | the verdict by what the two legs do: unattributable unless the unrestricted one succeeds; then SAFE if the restricted one does, vacuous when neither affected a row; LEAK exactly on an error that speaks of row-level security |
| `InsertVerdict.ReplayInsert` | internal/differ/differ.go:350-396 | a multi-row INSERT is replayed exactly when its keys are distinct, every collision is recoverable and at most two rows collide; it then inserts all rows and reports the last collision |
| `InsertVerdict.InsertVerdictExact` | internal/differ/differ.go:731-759 | the verdict on every multi-row INSERT, as a case distinction on conflicts and foreign rows |
| `InsertVerdict.SafeInsert` | internal/differ/differ.go:731-759 | SAFE means every row carries the claimed tenant and the one row in the way, if any, was that tenant's |
| `InsertVerdict.LeakInsert` | internal/differ/differ.go:740-745 | LEAK means the restricted INSERT ran and the policy rejected one of its rows |
| `InsertVerdict.TwoCollisionsNotSafe` | internal/differ/differ.go:393-437 | two or more collisions never give SAFE |
| `InsertVerdict.ForeignConflict` | internal/differ/differ.go:424-437 | a single conflicting row of another tenant is never judged |
| `InsertVerdict.ForeignConflictExact` | internal/differ/differ.go:393-437 | with a foreign conflict the INSERT is unattributable, except in exactly one situation, where it is a LEAK |
| `InsertVerdict.ForeignConflictCanLeak` | internal/differ/differ.go:393-437 | a concrete INSERT in that situation |
| `InsertVerdict.DeleteAlwaysSafe` | internal/differ/differ.go:746-758 | a DELETE is always SAFE, and vacuous exactly when it matches no row |
| `InsertVerdict.UpdateVerdict` | internal/differ/differ.go:731-759 | an UPDATE that keeps the keys is a LEAK exactly when a matched own row would get another tenant; otherwise SAFE whatever foreign rows it changes, and vacuous exactly when it matches no row |
| `Differ.Diff` | internal/differ/differ.go:72-125 | one verdict: resolution, claim, write or read; durable state unchanged |
| `Differ.VerdictAttributed` | internal/differ/differ.go:72-95 | SAFE and LEAK only for a resolved statement with every parameter known or NULL that names a scoped relation, and under the value it claims, or none when it claims no tenant |
| `Differ.Branches` | internal/differ/differ.go:72-125 | a claimed statement is replayed as the claimed value, or with the empty setting when it claims no tenant: a write by the write comparison, any other by the two results; without a claim or resolution it is unattributable |
| `Differ.ReadMeaning` | internal/differ/differ.go:72-125 | end to end for reads: the verdict of a SELECT claiming a value is about the rows that are not this tenant's among its derivations |
| `Differ.InsertMeaning` | internal/differ/differ.go:72-95 | end to end for INSERT: the case distinction on conflicts and foreign rows, at the claimed value |
| `Differ.UpdateMeaning` | internal/differ/differ.go:72-95 | end to end for UPDATE: LEAK exactly when an own matched row would get another tenant than the claimed one |
| `Differ.DeleteMeaning` | internal/differ/differ.go:72-95 | end to end for DELETE: SAFE for the claimed tenant, vacuous exactly when nothing matches |
| `Wire.Framer.Push` | internal/capture/protocol.go:49-51 | appends the bytes read |
| `Wire.Framer.Next` | internal/capture/protocol.go:54-74 | the next complete message, or nothing; a malformed length costs one byte |
| `Wire.ChunkInvariance` | internal/capture/protocol.go:45-74 | messages and retained bytes do not depend on how the stream is split into reads |
| `Wire.ChunkInvarianceExact` | internal/capture/protocol.go:54-74 | all splits into reads agree exactly when behind a malformed length, if any, there is only an unfinished frame |
| `Wire.MalformedSplitMatters` | internal/capture/protocol.go:60-63 | a stream with a malformed length on which two splits disagree |
| `Wire.FramingInvertsEncoding` | internal/capture/protocol.go:54-74 | framing an encoded message list returns it and keeps exactly the unfinished suffix |
| `Messages.CString` | internal/capture/protocol.go:78-88 | the text up to the next zero byte and the index behind it, or failure when there is none |
| `Messages.ParseParse` | internal/capture/protocol.go:128-138 | name and SQL of a Parse body |
| `Messages.ParseClose` | internal/capture/protocol.go:142-151 | kind and name of a Close or Describe body |
| `Messages.ParseInverse` | internal/capture/protocol.go:128-138 | reading inverts the Parse encoding: the name is the first text and the SQL the second, byte by byte |
| `Messages.ParseAccepted` | internal/capture/protocol.go:128-138 | a body is accepted exactly when it starts with some Parse encoding |
| `Messages.TargetInverse` | internal/capture/protocol.go:142-151 | reading inverts the Close and Describe encoding |
| `Messages.TargetAccepted` | internal/capture/protocol.go:142-151 | a body is accepted exactly when it starts with some such encoding |
| `Messages.ParseBind` | internal/capture/protocol.go:154-225 | the index-advancing parser computes the reading of a Bind body |
| `Messages.BindInverse` | internal/capture/protocol.go:154-225 | parsing inverts the Bind encoding for all names, zero, one or n format codes, and parameters |
| `Messages.BindAccepted` | internal/capture/protocol.go:154-225 | a body is accepted exactly when it starts with the encoding of some Bind, so nothing is read past it |
| `Messages.BoundParam` | internal/capture/protocol.go:183-222 | in a Bind read back from its encoding parameter j has format 0 without codes, the only code when there is one, and code j otherwise; NULL is known, a text value known with its own bytes as text, any other unknown with its bytes kept |
| `Messages.ParseParameterDescription` | internal/capture/protocol.go:229-242 | the OID list of a ParameterDescription body, or failure |
| `Messages.ParamDescInverse` | internal/capture/protocol.go:229-242 | it inverts the encoding |
| `Messages.ParseRowDescription` | internal/capture/protocol.go:246-266 | the column OIDs of a RowDescription body, or failure |
| `Messages.RowDescInverse` | internal/capture/protocol.go:246-266 | it inverts the encoding: the type of every column, in order |
| `Oid.DecodeFaithful` | internal/capture/oid.go:42-113 | for integers, oid, text, uuid and bytea two payloads decode to one text only when they are equal; for bool exactly when both or neither are zero; a wrong width never decodes |
| `Oid.Decodable` | internal/capture/oid.go:42-113 | the types and widths that decode, and no others |
| `Oid.DecodeInt4` | internal/capture/oid.go:52-58 | a two's-complement 32-bit integer decodes to its decimal text, signed and without leading zeros |
| `Oid.DecodeInt2` | internal/capture/oid.go:50-54 | the same for 16 bits |
| `Oid.DecodeInt8` | internal/capture/oid.go:66-70 | the same for 64 bits |
| `Oid.DecodeBool` | internal/capture/oid.go:44-48 | zero is false and every other byte true |
| `Oid.DecodeText` | internal/capture/oid.go:84-86 | the text types decode to their bytes as characters |
| `Oid.DecodeBytea` | internal/capture/oid.go:109-110 | a byte string decodes to two small hexadecimal digits for every byte behind the prefix |
| `Oid.DecodeUuid` | internal/capture/oid.go:88-92 | a UUID decodes to its hexadecimal digits in five groups |
| `Session.Session.ResolveParams` | internal/capture/session.go:159-193 | parameters are resolved in place by the recorded OIDs, guarded by their number |
| `Session.Session.Handle` | internal/capture/session.go:202-276 | one frontend message: new state and event |
| `Session.Session.HandleBackend` | internal/capture/session.go:119-154 | one backend message: new state and event |
| `Session.Session.FeedFrontend` | internal/capture/session.go:84-98 | a read from the client handles exactly the messages it completes |
| `Session.Session.FeedBackend` | internal/capture/session.go:103-117 | the same for the server |
| `Session.FeedInvariance` | internal/capture/session.go:84-98 | on a settled stream events and final state do not depend on how the client's bytes are split into reads |
| `Session.FeedBackInvariance` | internal/capture/session.go:103-117 | nor on how the server's are |
| `Interleaving.QueueInvariant` | internal/capture/session.go:119-137 | in every interleaving without an overtaking reply, answered names followed by the queue are all described names, and each reply is recorded under its own |
| `Interleaving.AnswerAttributed` | internal/capture/session.go:119-137 | the k-th ParameterDescription is announced under the k-th Describe of a statement |
| `Interleaving.QueueStep` | internal/capture/session.go:228-243 | every other message, portal Describes included, leaves the queue alone |
| `Interleaving.RecordedIsLast` | internal/capture/session.go:119-137 | the OIDs recorded for a name are the reply to its last answered Describe |
| `Interleaving.OrderObservable` | internal/capture/proxy.go:73-122 | the order assumption holds exactly when no reply goes unattributed, so a violation shows |
| `Interleaving.QueueShift` | internal/capture/session.go:119-137 | in every interleaving the queue is the described names from the position of the replies less the unattributed ones on |
| `Interleaving.ReplyShifted` | internal/capture/session.go:119-137 | so each reply is announced and recorded under the name as many places earlier as replies went unattributed before it, and is unattributed itself exactly when no name is left |
| `Interleaving.EarlyReplyShifts` | internal/capture/proxy.go:105-108 | in a trace of a reply, two Describes and a reply, the second reply is recorded under the first name and the second name stays in the queue |
| `Interleaving.BindResolution` | internal/capture/session.go:204-264 | a Bind resolves exactly when the latest Parse or Close of its statement is a Parse, and to that Parse's SQL |
| `Interleaving.ParamsHonest` | internal/capture/session.go:156-193 | every parameter of every emitted event is known or says why not, and a known binary one is the decoding of its own bytes under its own OID |
| `CapturedMessages.BindCaptured` | internal/capture/session.go:159-226 | from the bytes of a Bind: its event and every parameter, known from the wire when NULL or text; when binary, known exactly if as many OIDs are recorded as there are parameters and its own decodes its bytes, and else with the reason that applies |
| `CapturedMessages.ParamsExact` | internal/capture/session.go:159-226 | the same at every point of a run, with the OIDs recorded before it |
| `CapturedMessages.Int4Known` | internal/capture/session.go:159-193 | a binary int4 bound after its Describe was answered is known by its decimal text |
| `CapturedMessages.ParseCaptured` | internal/capture/session.go:204-210 | from the bytes of a Parse: the SQL is recorded under the name, and announced |
| `CapturedMessages.DescribeCaptured` | internal/capture/session.go:228-243 | a Describe of a statement is queued, of anything else passed over |
| `CapturedMessages.CloseCaptured` | internal/capture/session.go:245-264 | a Close of a statement forgets its SQL, and is announced |
| `CapturedMessages.QueryCaptured` | internal/capture/session.go:266-273 | a simple query is announced with its text, resolved |
| `CapturedMessages.ClientIgnored` | internal/capture/session.go:202-276 | other messages, and bodies that are no encoding, change nothing and announce nothing |
| `CapturedMessages.ParamDescCaptured` | internal/capture/session.go:119-137 | from the bytes of a ParameterDescription: its OIDs are recorded for the oldest Describe, or it is reported without one |
| `CapturedMessages.RowDescCaptured` | internal/capture/session.go:139-153 | a RowDescription is recorded for the statement described last |
| `Connection.ReadsAreTrace` | internal/capture/proxy.go:73-120 | reads from both sides in any order end in the state and the events of one message trace, so the theorems on traces are about connections |
| `Connection.ReadsDrain` | internal/capture/session.go:84-117 | the messages of that trace are, side by side, the framing of what each side sent, however it was split, with the unfinished bytes retained |
| `Connection.Serve` | internal/capture/proxy.go:73-120 | feeding the reads one at a time to the session computes that state and those events |
| `ArrayLiteral.Scan` | internal/schema/schema.go:260-304 | the character loop computes the state-machine run |
| `ArrayLiteral.ScanInvertsPrint` | internal/schema/schema.go:260-304 | scanning inverts printing for every list of strings and every choice of quoted or bare elements |
| `ArrayLiteral.MalformedExact` | internal/schema/schema.go:260-304 | a text is refused exactly when, white space around it aside, it does not stand between two braces; a missing source is an empty list |
| `Oracle.CheckA1` | internal/oracle/oracle.go:231-265 | the negative control passes exactly when the policy withholds some row |
| `Oracle.AllColumnsIdentify` | internal/oracle/oracle.go:308-328 | without a primary key the key of all columns identifies rows |
| `Oracle.KeysAgree` | internal/oracle/oracle.go:336-349 | two rules return the same keys equally often exactly when they agree on every row, if no row the first admits shares its key text with one it withholds |
| `Oracle.KeysDecide` | internal/oracle/oracle.go:336-349 | on distinct rows equal keys mean equal rules, for every other rule, exactly under that condition |
| `Oracle.AscendingUnique` | internal/oracle/oracle.go:390-413 | two ordered answers with the same keys are the same list |
| `Oracle.StringSlicesEqual` | internal/oracle/oracle.go:436-446 | the loop decides equality |
| `Oracle.CheckA4` | internal/oracle/oracle.go:376-421 | the positive control passes exactly when both answers hold the same keys equally often; always when the policy admits the tenant's rows and no other, and only then when no own row shares its key text with a foreign one; it reports a missing key exactly when there is neither key nor column |
| `Oracle.A4Decides` | internal/oracle/oracle.go:336-413 | on distinct rows a pass means, for every policy, exactly the tenant's rows, exactly when no own row shares its key text with a foreign one |
| `Oracle.CleanApart` | internal/oracle/oracle.go:308-349 | an identifying key free of the separator and the NULL sentinel is enough for that |
| `Oracle.SeparatorHidesWrongRow` | internal/oracle/oracle.go:336-349 | two rows with one key text, and a policy that shows the foreign one and passes |
| `Oracle.SentinelReadsAsNull` | internal/oracle/oracle.go:336-349 | a text equal to the NULL sentinel and NULL have one key text |
| `Oracle.BothControls` | internal/oracle/oracle.go:221-265 | among policies that pass A4, A1 passes exactly where a foreign row exists |
| `Oracle.SingleTenant` | internal/oracle/mutation_harness_test.go:251-303 | on a one-tenant probe the permissive policy passes A4 and fails A1 |
| `Oracle.TwoCanaries` | internal/oracle/oracle.go:121-140 | on a probe with two canaries the synthesised policy passes both controls, and any policy passing A4 shows the first canary and withholds the second |
| `Oracle.NegativeControlAlone` | internal/oracle/oracle.go:351-356 | A1 alone passes the inverted policy |
| `Oracle.PolicyProven` | internal/oracle/oracle.go:466-492 | proven exactly when all four controls were run and passed; otherwise the first that was not run or did not pass is named, and as which |
| `Canary.SamplesDiffer` | internal/oracle/probe.go:97-143 | row indices 2k and 2k+1 give different literals exactly for the known scalar types and arrays of them |
| `SampleLiterals.TypeNamed` | internal/oracle/probe.go:76-86 | from a type as the catalog writes it: its name in small letters, without modifier and brackets, and whether it is an array |
| `SampleLiterals.KindByName` | internal/oracle/probe.go:111-143 | which type names the dispatch groups together |
| `SampleLiterals.SampleFits` | internal/oracle/probe.go:97-143 | every sample is a literal of its type carrying the row's number, an array of one, or the empty array of an unknown element type; there is none exactly for the other types |
| `Canary.PrecisionUnknown` | internal/oracle/probe.go:76-86 | a time type with a precision is not among them |
| `Canary.EnumSamplesDiffer` | internal/oracle/probe.go:157-188 | two rows get different enum labels exactly when there are two labels |
| `Canary.EnumSampleIs` | internal/oracle/probe.go:157-188 | an enum's sample is its label at the row's position modulo their number, quoted and cast to the type |
| `Canary.ColumnSamplesDiffer` | internal/oracle/probe.go:194-203 | both rows get a sample or neither does, and they differ exactly when the type can tell rows apart |
| `Canary.CanariesDiffer` | internal/oracle/probe.go:223-258 | the two canaries are seeded as different tenants wherever the type can hold one |
| `SampleLiterals.CanaryFits` | internal/oracle/probe.go:223-258 | a canary is written exactly where the type is text or uuid, and as such |
| `Quoting.QuoteIdentInjective` | internal/oracle/oracle.go:83-85 | quoting keeps column names apart |
| `Canary.ColumnsNeedingSyntheticValues` | internal/oracle/probe.go:316-338 | exactly the members of unique indexes without the tenant column |
| `Canary.PlanRow` | internal/oracle/probe.go:378-415 | the loop computes the plan, or the first column it cannot serve |
| `Canary.PlanExact` | internal/oracle/probe.go:378-415 | a planned row writes the canary into the tenant column, a sample where an index needs one, what can be borrowed elsewhere, and leaves out what the database fills in |
| `Canary.SameColumns` | internal/oracle/probe.go:441-449 | on the sampling path both rows have one column list, or are refused over the same column |
| `Canary.PlansDiffer` | internal/oracle/probe.go:378-449 | the planned rows differ on an index exactly when one of its columns tells them apart |
| `Canary.SeedFromSample` | internal/oracle/probe.go:426-457 | seeding is refused exactly over an unsupported column; otherwise the rows line up and differ on exactly the separated indexes |
| `Canary.SeparatedMeaning` | internal/oracle/probe.go:303-338 | an index is separated when it holds the tenant column, and otherwise exactly when a member without default has a distinguishing type |
| `Gate.AggregateProof` | cmd/tenantguard/oracle_gate.go:340-360 | checked once some table was seeded, passed when in addition every seeded one passed |
| `Gate.AggregateOrderIrrelevant` | cmd/tenantguard/oracle_gate.go:328-360 | the fold ignores order, repetition and unseeded tables |
| `Gate.SeedCanaries` | internal/oracle/probe.go:583-636 | every relation is seeded or skipped; both lists are by name, in order |
| `Gate.SeededExact` | internal/oracle/probe.go:583-636 | the seeded list names, in policy order, exactly the relations whose seeding did not fail, as schema, dot and name |
| `Gate.SkippedExact` | internal/oracle/probe.go:583-636 | the skipped list names, in policy order, exactly the relations whose seeding failed, each with the reason of its own failure |
| `Gate.ProveTables` | cmd/tenantguard/oracle_gate.go:240-294 | the per-relation loop: proofs, split, and the abort on a missing row key |
| `Gate.RunGate` | cmd/tenantguard/oracle_gate.go:110-326 | the gate's decision |
| `Gate.GateProven` | cmd/tenantguard/oracle_gate.go:295-325 | a run is proven exactly when some relation is proven at row level, all such passed A1 and A4, and A2 and A3 passed |
| `Gate.RowLevelSound` | cmd/tenantguard/oracle_gate.go:240-325 | a row-level relation is scoped, was seeded, and passed both controls |
| `Gate.GatePartition` | cmd/tenantguard/oracle_gate.go:237-294 | row-level and structural-only split the scoped relations, and one is structural-only exactly when some scoped relation of its dotted name failed to seed |
| `Gate.SplitFollowsSeeding` | cmd/tenantguard/oracle_gate.go:232-248 | the split follows each relation's own seeding exactly when no seeded and unseeded scoped relation share a dotted name |
| `Gate.DottedNamesCollide` | cmd/tenantguard/oracle_gate.go:232-248 | two relations that do |
| `Gate.ExitCodeMeaning` | cmd/tenantguard/oracle_gate.go:435-450 | each exit code stands for exactly one condition on the run |
| `Population.IsNonQuery` | internal/differ/population.go:73-90 | the loop strips the same comment lines as the write test and finds a whole leading keyword |
| `Population.ClassifyUnattributable` | internal/differ/population.go:118-130 | the population, with its priorities |
| `Population.CommentsIrrelevant` | internal/differ/population.go:73-83 | comment lines in front do not change the population |
| `Population.NonQueryExact` | internal/differ/population.go:62-109 | a statement is a non-query exactly when its first word, in any case and behind any comment lines, is one of the ten, with a blank, a parenthesis or nothing behind it |
| `Population.NonQueryNeverWrites` | internal/differ/population.go:62-90 | no statement is both a non-query and a write |
| `Audit.JudgeQueries` | cmd/tenantguard/main.go:529-553 | one verdict per execution event, with a population exactly for the unattributable ones |
| `Audit.RunAudit` | cmd/tenantguard/main.go:556-580 | no report without a proven policy; otherwise the verdicts against the row-level relations |
| `Audit.VerdictBacked` | cmd/tenantguard/oracle_gate.go:311-325 | every SAFE or LEAK names a declared relation that was seeded and passed A1 and A4 |
| `Audit.UntouchedNeverJudged` | internal/differ/population.go:111-130 | a statement naming no row-level relation is unattributable and never in the population where attribution was possible |
| `Audit.PopulationMeaning` | internal/differ/population.go:111-130 | an unattributable statement is a non-query, or names a row-level relation, or a structural-only one, or none, in this order |
| `Audit.ExecutionsJudged` | cmd/tenantguard/main.go:529-553 | every execution, and nothing else, has the verdict on its own statement, parameters and resolution |
| `Audit.ControlsWork` | internal/oracle/oracle.go:231-421 | fewer rows counted under the policy and equal ordered keys mean that the policy admits exactly the canary's rows while a foreign row exists, if no own row shares its key text with a foreign one |
| `Audit.VerdictMeansWorkingPolicy` | cmd/tenantguard/oracle_gate.go:240-325 | when the flags of the seeded relations are those counts and key lists, behind every SAFE or LEAK stands a named, seeded relation whose policy withheld a row and, if its keys keep own and foreign rows apart, admitted exactly the canary's rows while a foreign one existed |
| `Accounting.CountVerdicts` | cmd/tenantguard/main.go:608-632 | the counting loop |
| `Accounting.CountsAddUp` | cmd/tenantguard/main.go:608-632 | verdicts sum to the queries, populations to the unattributable ones, vacuous SAFE within SAFE |
| `Accounting.VerdictsClassified` | cmd/tenantguard/main.go:546-548 | the verdict loop gives exactly the unattributable verdicts a population |
| `Accounting.UnattributableRateBreakdown` | cmd/tenantguard/main.go:694-724 | the four rates, empty denominators omitted |
| `Accounting.DenominatorChain` | cmd/tenantguard/main.go:698-712 | the four denominators form a decreasing chain, each bounding its numerator |
| `Accounting.RateMeaning` | cmd/tenantguard/main.go:694-724 | the four rates, by label: of all verdicts, of all but non-queries, of those judged on rows or on a declared relation, of those judged on rows or on a row-level relation, the number of unattributable ones over the number |
| `Accounting.CheckUnattributableCeiling` | cmd/tenantguard/ceiling.go:161-174 | the search decides by the first entry of the ceiling's denominator |
| `Accounting.CeilingExact` | cmd/tenantguard/ceiling.go:139-174 | the check is the comparison of whole numbers, an absent entry passing |
| `Accounting.CeilingStable` | cmd/tenantguard/ceiling.go:148-174 | one more vacuous SAFE, non-query, undeclared or structural-only query leaves the answer, a real SAFE or a LEAK never breaches anew, a failed row-level attribution never clears |
| `Accounting.Summarize` | cmd/tenantguard/main.go:600-637 | counts, rates and the ceiling's answer of a run |

## Left out

- Regular expressions: what they match (relation names and aliases, tenant comparisons, casts, the INSERT head and the VALUES keyword) is an input; that the INSERT target is among the names is the hypothesis `TargetNamed`.
- Case mapping and white space beyond ASCII, so a name character that trimming would take for white space is not treated as such; texts are sequences of characters, bytes where the wire is modelled.
- `WithRendering.RenderedWrite`: names are any PostgreSQL names, but `U&"…"` ones; between tokens stand spaces, tabs and line breaks, neither form feeds nor comments, at which the walkers stop (`WithRendering.CommentHides`); parentheses in column lists and bodies are balanced, counting those in quotes; bodies hold no comments, and the leading word of a primary statement is a write keyword or does not start with one (a word such as INSERTED is outside the printed language).
- `Rls.RestrictedResult`: aggregates and other non-monotone queries, triggers, foreign keys, sequences and views without `security_invoker` are not part of the query language.
- `Conflict.RecoverableExact`: the server also quotes column names that are reserved words, and shows an expression in place of a column of an expression index; such columns are not part of the keys.
- `InsertVerdict.InsertVerdictExact`: one unique key per table; an UPDATE that changes keys has a verdict only through the general `WriteReplay.DiffWrite`; error texts other than the row-security message are data.
- `Oid.DecodeFaithful`: dates, timestamps and floating-point values are rendered by a library, which is a parameter.
- `Interleaving.QueueInvariant`: that a Describe is observed before its reply is an assumption, since the proxy forwards before it observes (`Interleaving.QueueShift` needs none); each feed of a read is one atomic step, as under the session's lock.
- `Oracle.CheckA4`: the database's answers come in a total order of texts; the reference predicate compares the column's text, not its typed value.
- `Oracle.A4Decides`: the exact condition is stated on distinct rows, as every table with a primary key has; with duplicates the pass still means equal keys (`Oracle.CheckA4`).
- `ResultRows.TextIdentifies`: rows are as PostgreSQL stores them, with no zero byte in a text, which the NULL mark holds.
- `Canary.SamplesDiffer`: literals are compared as SQL text; what the server makes of them (a length limit, say) is not modelled, nor are expression and partial indexes, whose columns the catalog query lists as they are.
- `SampleLiterals.SampleFits`: a UUID sample has 36 characters for row numbers of up to twelve digits; that a number is in the range of its type is not stated.
- `Canary.PlanRow`: catalog errors during planning, and the second path that fills rows from an operator's fixture, of which only the common planner is modelled.
- `Gate.RunGate`: A2 and A3, the creation of probe, role and policies, and the texts of errors are represented by their outcome.
- `Accounting.CheckUnattributableCeiling`: rates are exact fractions; the program divides in 64-bit floating point, which agrees for counts below 2 to the power of 40.
- Sockets, the start-up phase, TLS refusal, the JSON event log, report printing, command-line flags, triage heuristics and the guardrail wrapper: input and output around the modelled core.
