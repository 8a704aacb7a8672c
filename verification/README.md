# Verified model of the distribution kernel

A Dafny model of the parts of the repository that decide what is installed, what is accepted and
what is read, with proofs about them. `dafny verify dfyconfig.toml` checks everything.

## What is modelled

**The distribution installer** (`distribution/install.py`). The installation root is a value
(`InstallRoot`): journals, pointers, snapshots, launchers, generations, trash. Every durable write,
rename or removal is one step, and a process may die after any of them. `InstallPlans` gives the
step lists of recovery, sweep, abort and commit; `InstallSections` the locked sections of install,
upgrade, rollback and uninstall with their exception handlers; `InstallRuns` crashes, crashes inside
recovery and retries; `InstallUpgrades` staged upgrades and their retries; `InstallOutcomes` what a
crashed transaction leaves once recovered; `InstallAnswers` when each section accepts and what it then
leaves; `InstallSystem` any number of processes that interleave at the lock, each with its own safety
port; `InstallGate` the authorization behind every upgrade journal; `InstallWitnesses` runs that reach
the awkward roots. `Installer` is the imperative side: a class whose methods take those steps one at a
time, each proved to take exactly its plan, or a prefix of it when the process dies.

**The wheel-closure prover** (`distribution/wheel_closure.py`). `VersionOrder` and `VersionRanges`
are the version order and specifiers of PEP 440, `MarkerText`, `Markers` and `MarkerValues` the
environment markers of PEP 508, held in `MarkerLexemes` and `MarkerMeaning` against a declared reading
and meaning, `Closure` the worklist over (distribution, extra) pairs, `BundleAcceptance` the rule
`distribution/bundle.py` composes from them.

**The supervisor lifecycle** (`distribution/lifecycle.py`). `Lifecycle` is start, stop and quiescence
under one lock with time passing and processes that die at any time, and the shutdown handshake by which a
stop bounds the cleanup of the supervisor; `LockOrder` the two locks taken in both orders.

**State safety** (`distribution/state_safety.py`). `SafetyPort` is the inspection of Control state, the
two ports, and the gate an upgrade passes before its journal; the commit section of `Installer` calls it.

**Runtime staging** (`cortex_platform/runtime_staging.py`). `MemberNames` and `Extraction` are archive
member names, extraction, sealing, publishing and the reuse check.

**Scanners.** `InlineScan` is the Markdown inline scan and `InlineReadings` what its ranges are in terms of the text,
`Brackets` the bracket matcher (`tools/audit_asset_refs.py`); `JsonStrings`, `JsonSpans`, `JsonScan`, `Utf8` and
`Grounding` are the strict JSON scan with its translation to bytes, and `JsonGrammar` holds it against RFC 8259
(`tools/evaluate_retrieval.py`).

## Where the code differs from what it says

- The stale-candidate sweep can die between its last candidate and the empty `versions` directory.
  The retry of an install is then refused, although recovery is meant to leave nothing that refuses a
  retry. `InstallRuns.InstallAccepted` gives the exact condition, `InstallWitnesses.SweepCutShortIsReached` a run.
- A candidate directory whose removal was cut short is neither repaired nor swept, and every retry of that
  upgrade is refused. `InstallUpgrades.UpgradeRetry` gives the exact condition, `InstallWitnesses.WoundIsReached` a run.
- `<` and `>` compare untrimmed releases in their pre-release and post-release guards, so two spellings
  of one candidate, or of one bound, can be answered differently, which PEP 440 rules out.
  `VersionRanges.ExclusiveAndTrailingZeros` gives the exact condition, with counterexamples beside it.
- A supervisor that dies before it has written its record can leave a child that nothing names.
  `Lifecycle.ChildrenNamedExactly` gives the exact condition, `Lifecycle.UnrecordedChildOutlives` a run;
  supervisors themselves are never left over.
- Staging that dies between its rename and its last mode change leaves a destination that is refused both
  for staging, because it exists, and for reuse, because of its mode. `Extraction.PythonTree.Stage` says
  that this happens there and nowhere else.
- The archive check for a normalised name is implied by the check of its components
  (`MemberNames.SafeExactly`).

## Model

| member | source | states |
|---|---|---|
| InstallRoot.StepKeeps | distribution/install.py:815-825 | Each durable step whose guard holds keeps the root invariant, and changes the installed pair only if it is the switch of `current.json` or its move into the trash. |
| InstallPlans.GuardedKeeps | distribution/install.py:1028-1080 | Every prefix of a list of guarded steps keeps the invariant, so a crash after any step leaves a legal root. |
| InstallPlans.PointerRecoverySilent | distribution/install.py:1028-1080 | Pointer recovery, from any legal root with a readable journal and cut off anywhere, never changes what is installed; run to its end it either only removes the journal or leaves exactly the tree before without the transaction's own snapshot, generation and launchers, an emptied directory going with its last entry. |
| InstallPlans.RestoreAll | distribution/install.py:915-941 | The restore loop of an aborted uninstall brings back every discarded name, and the tree is then exactly what it was meant to be. |
| InstallPlans.FinishSilent | distribution/install.py:2243-2255 | Finishing an uninstall whose `current.json` is already gone only removes what is no longer installed and ends with nothing left. |
| InstallPlans.UninstallRecoverySilent | distribution/install.py:872-941 | Recovery of an uninstall journal never ends in "manual recovery" on a legal root and leaves the installed pair as it found it. |
| InstallPlans.LockSilent | distribution/install.py:1082-1139 | What every locked section does first (entry, recovery, sweep) never changes what is installed, is refused exactly on a torn journal, and otherwise ends with no journal of either kind. |
| InstallSections.BodyTracks | distribution/install.py:815-825 | A transaction run through keeps its guards, commits at one step only, the switch of `current.json`, which makes the target pair the installed one, and ends with both pointers in place and no journal. |
| InstallSections.TransactionTracks | distribution/install.py:1405-1416 | A transaction interrupted by an exception after any step, with its handler, still commits at most once and to its own target, and leaves no journal. |
| InstallSections.UninstallTracks | distribution/install.py:2309-2345 | Uninstall commits at one step only, the rename of `current.json` into the trash. |
| InstallSections.SectionAtomic | distribution/install.py:1192-2347 | Any prefix of any locked section of any operation keeps the invariant, and what is installed is the pair before or the target, nothing between. |
| InstallRuns.RecoveryDecides | distribution/install.py:1028-1080 | After a crash with a journal on disk and any number of crashes inside recovery, a completed recovery leaves the after-pair if `current.json` had been switched and the before-pair otherwise. |
| InstallOutcomes.TransactionAllOrNothing | distribution/install.py:1028-1080 | A transaction that dies after any of its steps, any number of crashes inside recovery, then a completed recovery: if `current.json` had been switched, everything the transaction was to do is done; otherwise nothing of it is left, its snapshot, generation and launchers included, and everything else is as it was, up to stale candidates and empty directories. |
| InstallAnswers.FaultAllOrNothing | distribution/install.py:1405-1416 | An exception after any step of a transaction, and its handler: the same all or nothing, no journal, and as many candidates as before. |
| InstallAnswers.PhaseIsProgress | distribution/install.py:807-825 | While a transaction is under way the recorded phase says exactly how far it has got, and the pointers are switched as it says. |
| InstallAnswers.RecoverAnswers | distribution/install.py:1141-1143 | `recover` reports what became of the operation that was cut short: aborted, committed, completed or none. |
| InstallAnswers.RecoveryIsCautious | distribution/install.py:1043-1076 | On any root, legal or not, pointer recovery goes ahead exactly when the pointers are those before or after the transaction and name whole generations, launchers and snapshot standing; otherwise it takes no step. |
| InstallAnswers.EntryIsCautious | distribution/install.py:1110-1131 | On any root, entries without the ownership marker, two kinds of journal, a torn journal, trash without a journal, or names on both sides of an uninstall are refused without a step. |
| InstallRuns.RecoveryIgnoresPhase | distribution/install.py:1053-1064 | Two crashed roots that differ only in the recorded phase recover by the same steps to the same root. |
| InstallRuns.UninstallAllOrNothing | distribution/install.py:2324-2345 | An uninstall crashed after any step that does not leave a torn journal, and again any number of times inside recovery, ends with the five owned names exactly as they were or with all of them gone; the rename of `current.json` decides which. |
| InstallRuns.InstallAccepted | distribution/install.py:1194-1279 | On every legal root an install whose checks pass is accepted if and only if no journal is torn, no other release is installed, and no sweep was cut short between its last candidate and the empty `versions` directory. |
| InstallRuns.InstallRetry | distribution/install.py:1206-1279 | Retrying the same install after any number of crashed or failed attempts is accepted under that same condition on the crashed root. |
| InstallAnswers.InstallSays | distribution/install.py:1206-1222 | An install says exactly why it goes no further: another release is installed, this one is, or entries were left over. |
| InstallRuns.RollbackSwaps | distribution/install.py:1816-1839 | A rollback run to completion on a root without journals exchanges the two pointers. |
| InstallRuns.RollbackOnce | distribution/install.py:1886-1908 | A rollback that crashes at any step with its journal on disk, followed by a rollback run to completion, swaps the two pointers exactly once in total. |
| InstallAnswers.RollbackAccepted | distribution/install.py:1813-1845 | On every legal root a rollback is let in if and only if no journal is torn, current and last known good are two releases, and recovery has not just finished an earlier rollback; in that case it reports success without a second swap. |
| InstallAnswers.CommitRollbackAccepted | distribution/install.py:1866-1908 | Its commit goes through if and only if the pair it has checked is still the installed one. |
| InstallAnswers.UninstallAccepted | distribution/install.py:2265-2280 | An uninstall is let in if and only if no journal is torn and something is installed, and remembers what. |
| InstallAnswers.CommitUninstallAccepted | distribution/install.py:2284-2345 | Its commit goes through if and only if that release is still installed, and then nothing at all is left. |
| InstallSystem.NextKeeps | distribution/install.py:1366-1415 | One section by one process, run through or cut off by its death, is a compare-and-swap: the installed pair stays, or, if it is what the request expects, becomes the target; a reported success has happened. |
| InstallSystem.InterleavingsAreSafe | distribution/install.py:1366-1444 | Over every interleaving of every operation by any number of processes, at every durable step: at most one journal is pending, trash implies an uninstall journal, every pointer journal passes its own reader, and outside a pending uninstall both pointers name whole generations. |
| InstallSystem.OnlyTornJournalsRefuse | distribution/install.py:609-625 | In every reachable state a section is refused exactly when a journal is torn, and then the root is left untouched. |
| InstallSystem.AbortSparesNamed | distribution/install.py:1053-1064 | An upgrade journal whose candidate has become last known good before it was written: aborting it does not delete that candidate. |
| InstallGate.UpgradeJournalsAreAuthorized | distribution/install.py:1384-1406 | Over every interleaving: an upgrade journal names the two pointers of the section that writes it, and in that section, before it, the process's own port granted an authorization for exactly that upgrade and accepted it once, with equal looks. |
| InstallGate.PortGoesOn | distribution/install.py:1384-1387 | The port a section leaves is the one the next section of that process starts from, with what it has handed out and taken back. |
| InstallUpgrades.UpgradeAccepted | distribution/install.py:1304-1350 | On every legal root, staging an upgrade whose checks pass is accepted if and only if no journal is torn, something is installed, it is the candidate or nothing newer than it, and whatever stands under the candidate's digest after recovery is whole. |
| InstallUpgrades.UpgradeRetry | distribution/install.py:1425-1444 | After any number of stagings and discards that die anywhere, the retry of the upgrade is accepted if and only if the candidate's directory is absent or whole. |
| InstallUpgrades.WoundedStays | distribution/install.py:1145-1178 | A candidate directory left half removed survives every sweep and every further attempt to stage, and refuses each of them. |
| InstallAnswers.CommitUpgradeAccepted | distribution/install.py:1366-1408 | On every legal root the commit of an upgrade goes through if and only if no journal is torn, the release it expects is installed, the candidate is whole, its checks pass and its gate opens. |
| InstallAnswers.StageLeaves | distribution/install.py:1327-1350 | Staging that is accepted adds the candidate, unless it stands already, and nothing else; staging that fails, wherever an exception strikes, leaves the generations as they were and no candidate of its own. |
| InstallAnswers.StageSays | distribution/install.py:1304-1312 | Staging says exactly why it goes no further: nothing is installed, the release is, or a newer one is. |
| InstallAnswers.DiscardLeaves | distribution/install.py:1434-1444 | A discard takes out exactly the candidate's directory, unless a pointer names it. |
| InstallAnswers.StagedIsRemembered | distribution/install.py:1328-1344 | A process that goes on to commit remembers the release it found, and that it made the candidate exactly when it did. |
| InstallAnswers.FailureIsRemembered | distribution/install.py:1417-1422 | A commit that fails sends its process to discard the candidate it made, and no other commit does. |
| InstallWitnesses.SweepCutShortIsReached | distribution/install.py:1171-1177 | A run from the empty root: an install dies, its recovery dies between the last candidate and the empty directory, and the retry is refused. |
| InstallWitnesses.WoundIsReached | distribution/install.py:1434-1444 | A run from the empty root in which a discard dies in the middle of a removal and the retry of the upgrade is refused. |
| InstallWitnesses.ReturnIsReached | distribution/install.py:1366-1415 | A run from the empty root in which `current` goes from A to B and back to A between the two sections of an upgrade of B, which dies with its journal written; recovery keeps B, now last known good. |
| Installer.DistributionInstaller.PublishPointerTransaction | distribution/install.py:815-825 | Publishing takes the durable steps of the plan in order, or a prefix of them when the process dies. |
| Installer.DistributionInstaller.AbortTransaction | distribution/install.py:1053-1080 | Undoing a transaction takes the steps of the abort plan, or a prefix of them. |
| Installer.DistributionInstaller.RecoverTransactionLocked | distribution/install.py:1028-1080 | Pointer recovery takes the plan's steps (or a prefix), reports the plan's verdict and records the recovered action and operation. |
| Installer.DistributionInstaller.RecoverUninstallLocked | distribution/install.py:872-941 | Uninstall recovery takes the plan's steps (or a prefix) and reports its verdict. |
| Installer.DistributionInstaller.DiscardStaleCandidatesLocked | distribution/install.py:1145-1178 | The sweep removes each stale candidate, then an empty `versions` directory. |
| Installer.DistributionInstaller.Locked | distribution/install.py:1082-1139 | Entering the lock runs entry, both recoveries and the sweep in the plan's order, stopping at the first refusal. |
| Installer.DistributionInstaller.InstallLocked | distribution/install.py:1194-1279 | The install section takes exactly its plan's steps and answers as the plan does. |
| Installer.DistributionInstaller.Commit | distribution/install.py:1364-1416 | A commit section that meets no exception takes exactly its plan's steps, or a prefix when the process dies, and answers as the plan does. |
| Installer.DistributionInstaller.CommitUpgradeLocked | distribution/install.py:1366-1408 | The commit section of an upgrade takes its plan's steps, none of them before its port has authorized the request and taken the authorization back, and leaves the port as the gate does. |
| Installer.DistributionInstaller.HandleException | distribution/install.py:1409-1416 | The handlers of a failed transaction remove a torn journal or half-staged candidate and recover, taking exactly the plan's steps. |
| VersionOrder.TrimRelease | distribution/wheel_closure.py:140-158 | The trimming loop drops exactly the trailing zeros of the release. |
| VersionOrder.KeysTotal | distribution/wheel_closure.py:75-158 | Keys of mixed sentinels, numbers and tuples are totally ordered: antisymmetric, transitive and decided for every two. |
| VersionOrder.CompareIsOrder | distribution/wheel_closure.py:203-210 | `compare` is a total order on parsed versions and is 0 exactly on equal keys. |
| VersionOrder.ReleasesInOrder | distribution/wheel_closure.py:140-158 | The epoch decides first, then the first component in which two releases differ, as numbers. |
| VersionOrder.SuffixesInOrder | distribution/wheel_closure.py:144-151 | Of one release, `.dev` comes before `a`, then `b`, `rc`, the release and its `.post`, numbers in their order, and each of them with a `.dev` before itself. |
| VersionOrder.LocalsInOrder | distribution/wheel_closure.py:154-158 | Otherwise equal, a version without a local part comes first, and local parts compare by their first difference. |
| VersionOrder.LocalPartsInOrder | distribution/wheel_closure.py:188-191 | Of two local parts a word comes before a number, numbers in their order, words by their characters. |
| VersionRanges.TrimmedIsPadded | distribution/wheel_closure.py:140-158 | Comparing trimmed releases is comparing the same releases padded with zeros to any common length. |
| VersionRanges.WildcardIsInterval | distribution/wheel_closure.py:216-219 | `==X.Y.*` admits exactly the half-open interval from `X.Y.dev0` to `X.(Y+1).dev0`, whatever the epoch, trailing zeros or local part, and `!=X.Y.*` exactly the rest. |
| VersionRanges.CompatibleIsInterval | distribution/wheel_closure.py:246-253 | `~=V` admits exactly the versions from `V` up to the `.dev0` of the bumped prefix, and cannot be decided exactly for a `V` of one component or with a local part. |
| VersionRanges.ClauseMeans | distribution/wheel_closure.py:222-285 | Every operator: a clause is refused exactly when it is not supported, and otherwise holds exactly by the candidate's place in the version order. |
| VersionRanges.FinalTrichotomy | distribution/wheel_closure.py:238-285 | For final releases exactly one of `<V`, `==V`, `>V` holds, and the inclusive operators are the unions. |
| VersionRanges.InclusiveIgnoresTrailingZeros | distribution/wheel_closure.py:222-264 | Every operator but `<`, `>` and `===` answers alike for versions of equal key. |
| VersionRanges.ExclusiveAndTrailingZeros | distribution/wheel_closure.py:265-285 | For two spellings of the candidate and two of the bound, `<` and `>` answer alike exactly unless the pre-release or post-release guard tells the untrimmed releases of one pair apart and not of the other. |
| VersionRanges.TrailingZeroCounterexample | distribution/wheel_closure.py:265-274 | `1.0a1` and `1.0.0a1` are the same version, yet `<1.0` refuses one and admits the other; `<1.0` and `<1.0.0` are the same bound, yet differ on `1.0a1`. |
| VersionRanges.SatisfiesSet | distribution/wheel_closure.py:288-311 | The loop over a specifier set decides as the specification does, unsupported clauses included. |
| VersionRanges.SatisfiesMeaning | distribution/wheel_closure.py:288-311 | A set is satisfied exactly when every clause is, and a pre-release also needs the set to mention one. |
| VersionRanges.MentionsMeans | distribution/wheel_closure.py:302-306 | A set mentions a pre-release exactly when a clause that does comes before any that cannot be read, and mentions none exactly when all can be read and none does. |
| VersionRanges.SetRefused | distribution/wheel_closure.py:302-311 | A set cannot be decided exactly when the first clause that is not satisfied cannot, or, for a pre-release that no clause lets in, when some clause cannot be read. |
| Markers.MarkerParser.ParseAll | distribution/wheel_closure.py:382-386 | The parser object answers as the parsing function and has then read every token. |
| Markers.MarkerParser.OrExpression | distribution/wheel_closure.py:388-393 | The loop over `or` reads exactly one or-expression from the current index, keeping the depth. |
| Markers.MarkerParser.Term | distribution/wheel_closure.py:402-415 | A term is a parenthesised expression one level deeper, within the depth limit, or a comparison. |
| Markers.ParsesExactlyTheGrammar | distribution/wheel_closure.py:365-454 | The parser accepts exactly the token lists the PEP 508 grammar derives within the depth and token bounds, with the grammar's left-associative tree, and consumes all tokens. |
| Markers.PrintIsLeastOr | distribution/wheel_closure.py:388-415 | Printing with minimal parentheses is no longer and no deeper than any way to write the same tree. |
| Markers.PrintThenParse | distribution/wheel_closure.py:365-454 | A printed tree parses back to itself if and only if its minimal printing is within the bounds, which is whenever any printing of it is. |
| MarkerText.TokenizeMarker | distribution/wheel_closure.py:338-362 | The token loop yields exactly the tokens of the text, or the first reason to refuse it: oversized text, unsupported characters, or one token too many. |
| MarkerLexemes.FirstTokenMeans | distribution/wheel_closure.py:318-328 | The token read at a place is the one whose lexeme is the longest that stands there. |
| MarkerLexemes.TokenizeMeans | distribution/wheel_closure.py:338-362 | The tokens are exactly those the text is made of, white space between them, when text and list are within their bounds. |
| MarkerLexemes.ParseMarkerMeans | distribution/wheel_closure.py:448-454 | A text has a tree exactly when, stripped, it is not empty, its tokens derive that tree by the grammar, and text, tokens and nesting are within their bounds. |
| MarkerText.RenderedIsRead | distribution/wheel_closure.py:318-362 | Tokens written out as text are read back as themselves. |
| MarkerText.TextRoundTrip | distribution/wheel_closure.py:338-454 | A tree printed with minimal parentheses and written out as text parses back to itself, exactly when text, tokens and nesting are within their bounds. |
| MarkerValues.PassIrrelevant | distribution/wheel_closure.py:513-529 | A marker that does not mention `extra` evaluates alike for every extra. |
| MarkerMeaning.EvaluateMeans | distribution/wheel_closure.py:457-529 | A marker is decided, and then as true or false, exactly by a declared meaning of operands, comparisons and connectives, with `extra` bound to the extra of the pass. |
| MarkerMeaning.ComesOutIsTruth | distribution/wheel_closure.py:513-519 | What it is decided as is its classical truth, whatever is taken for comparisons that cannot be decided. |
| MarkerMeaning.AppliesMeans | distribution/wheel_closure.py:797-801 | A requirement applies at a pair exactly when it has no marker, or one that the grammar derives and that is true with `extra` bound to the pair's. |
| MarkerMeaning.ExtraGates | distribution/wheel_closure.py:457-467 | A requirement behind `extra == "x"` applies in the pass of `x` and in no other. |
| MarkerMeaning.RaisesMeans | distribution/wheel_closure.py:798-807 | A requirement cannot be decided exactly when it was not read, its marker comes out neither way, or it applies and its specifier cannot be decided on a shipped target. |
| MarkerMeaning.FitMeans | distribution/wheel_closure.py:806-807 | A shipped version fits exactly when the specifier is empty or every clause holds, a pre-release being mentioned; it cannot be told exactly when the set cannot. |
| Closure.Follow | distribution/wheel_closure.py:784-806 | One step of the walk adds exactly the pairs, missing names and unsatisfied requirements of one distribution's active requirements. |
| Closure.Walk | distribution/wheel_closure.py:769-816 | The worklist terminates and its result is exactly the projection of the reachable pairs, with exactly the defects on their edges. |
| Closure.ProveClosure | distribution/wheel_closure.py:747-816 | Duplicates, absent roots and undecidable requirements are reported exactly when there are any, with the name concerned; otherwise the proof is the correct one. |
| Closure.ReachedIsLeast | distribution/wheel_closure.py:782-807 | The reachable pairs are contained in every set closed under roots and active requirements. |
| Closure.PlainReached | distribution/wheel_closure.py:797-806 | Whenever a name is reached under an extra, it is also reached without one. |
| Closure.OrderIrrelevant | distribution/wheel_closure.py:747-816 | The proof does not depend on the order of entries, requirements or roots. |
| Closure.SmuggledStayUnreachable | distribution/wheel_closure.py:807-816 | A set of distributions with no active edge into it from outside stays unreachable. |
| BundleAcceptance.ValidateSdistBuilds | distribution/bundle.py:1516-1561 | The build record is accepted exactly when it is not empty and every entry cites a pinned name and a pinned source archive. |
| BundleAcceptance.ValidateDependencyClosure | distribution/bundle.py:1429-1513 | The dependency check accepts exactly the bundles that meet the declarative rule. |
| BundleAcceptance.AcceptedBundle | distribution/bundle.py:1429-1561 | An accepted bundle ships exactly the closure of the workspace roots; dependency names equal the lock's; every digest is pinned or named by a record citing a pinned source archive; every recorded name is a shipped dependency wheel. |
| InlineScan.MoveWithMemo | tools/audit_asset_refs.py:419-461 | One step of the scan that remembers failed searches moves and marks exactly as the scan that always searches. |
| InlineScan.InlineRanges | tools/audit_asset_refs.py:399-463 | For every text and block list the remembering scan returns the same ranges as the plain one, and searches in vain at most once for each closer up to each block end. |
| InlineReadings.RangesAreReading | tools/audit_asset_refs.py:399-463 | From the text alone: it has exactly one reading into comments, tags and code spans, each the first to open behind the one before, and the ranges are its comments and code spans. |
| InlineReadings.EscapedOpensNothing | tools/audit_asset_refs.py:429-430 | Nothing opens behind an odd run of backslashes that stands outside every comment, tag and code span, and a code span opens at the start of a run of backticks. |
| InlineScan.PlainRanges | tools/audit_asset_refs.py:399-463 | The ranges are increasing, disjoint, inside the text and, when blocks begin at line starts, each inside one block. |
| InlineScan.CodeSpanIsFirstEqualRun | tools/audit_asset_refs.py:392-396 | A code span ends at the first maximal run of backticks of the opener's length in its block, and there is none exactly when no such run exists (CommonMark 0.31, section 6.1). |
| Brackets.BracketPairs | tools/audit_asset_refs.py:587-602 | The one-pass matcher returns exactly the declaratively matching pairs. |
| Brackets.MatchIsInnermost | tools/audit_asset_refs.py:587-602 | An unescaped `]` matches the innermost open `[` of its own block and nothing else. |
| Brackets.MatchesNest | tools/audit_asset_refs.py:587-602 | Two matches are nested or apart, never crossing. |
| Lifecycle.StepKeeps | distribution/lifecycle.py:2589-2733 | Every step of start, stop, quiescence, supervisors and children keeps the protocol invariant. |
| Lifecycle.AtMostOneSupervisor | distribution/lifecycle.py:2620-2733 | Over all interleavings, with processes dying at any time, at most one supervisor is alive; a live one is named by the record or owned by the start that holds the lock; none is alive under quiescence. |
| Lifecycle.RecordOutlivesProcesses | distribution/lifecycle.py:1563-1571 | The record is removed only when no process it names is alive. |
| Lifecycle.ChildrenNamedExactly | distribution/lifecycle.py:2589-2618 | Over every run a live child is named by the record, or its run owned by a start, exactly when its run wrote its record or is so owned. |
| Lifecycle.UnrecordedChildOutlives | distribution/lifecycle.py:2589-2618 | A run in which a supervisor dies before it writes its record and its child stays alive with nothing naming it. |
| Lifecycle.StopEnds | distribution/lifecycle.py:2714-2745 | Over every run a stop that gets to its end does so before its deadline, and leaves no record, no supervisor of any run alive, and no child but of a run that never wrote its record. |
| Lifecycle.StartEnds | distribution/lifecycle.py:2681-2694 | Over every run a start that reports success leaves a live supervisor that is named by the record it wrote. |
| Lifecycle.InTimeIsAccepted | distribution/lifecycle.py:1471-1498 | Over every run a supervisor that reads a stop's request obeys and acknowledges it exactly when it reads it before the deadline it carries and can answer, so the limit on deadlines refuses no stop, whatever its timeout. |
| Lifecycle.StopBindsCleanup | distribution/lifecycle.py:1497-1533 | Over every run: once a stop's request has been read in time and answered, the stop event stays set and any cleanup of that supervisor has exactly the request's deadline, which lies within the stop's own and the limit. |
| Lifecycle.BoundIsStops | distribution/lifecycle.py:1471-1498 | Over every run a supervisor has a deadline only from an acknowledged request of a stop for its own claim. |
| Lifecycle.AcknowledgedStops | distribution/lifecycle.py:1546-1560 | Over every run a stop waits for the exit only of a supervisor whose stop event is set and whose cleanup ends within the stop's own deadline. |
| Lifecycle.StopCompletes | distribution/lifecycle.py:2735-2745 | For every positive timeout there is a run in which the stop is acknowledged, bounds the cleanup by the shorter of timeout and limit, and leaves nothing behind. |
| Lifecycle.FirstAcceptedWins | distribution/lifecycle.py:1811-1825 | The first request that is accepted and answered ends the supervisor's loop, and its deadline is the one cleanup gets. |
| Lifecycle.ServedMeans | distribution/lifecycle.py:1471-1498 | Serving ends with a deadline exactly when some request was whole, for this claim, in time, within the limit and answered before a child died: the first one's. |
| Lifecycle.Supervisor.Serve | distribution/lifecycle.py:1811-1825 | The loop leaves the stop event and the deadline as its specification does on the same arrivals, and hands cleanup the accepted deadline or its own allowance. |
| LockOrder.OperationsBalanced | distribution/cli.py:186-204 | The programs of all operations take each lock only when they do not hold it, work under the distribution lock only, and end holding neither. |
| LockOrder.WorkIsExclusive | distribution/cli.py:186-204 | No two processes are at work at one time. |
| LockOrder.SomethingHappens | distribution/lifecycle.py:559-570 | In every unfinished state some process can act, time out, or is counting down: there is no deadlock although the locks are taken in both orders. |
| LockOrder.RunsAreBounded | distribution/install.py:1365-1366 | Every productive step decreases a measure, so no run is longer than the measure of its first state. |
| LockOrder.EverythingFinishes | distribution/install.py:1103 | Any finite set of operations can be run to the end and leaves both locks free. |
| LockOrder.CycleIsBroken | distribution/cli.py:186-204 | The two orders do meet in a cycle of waits, which only the bounded lifecycle wait breaks. |
| SafetyPort.ReadRoots | distribution/state_safety.py:410-418 | The loop over recorded roots succeeds exactly when every entry is well typed, and then yields each entry's identity and revision in order. |
| SafetyPort.UpgradeSafetyPort.Authorize | distribution/state_safety.py:156-160 | Inspects, and on success enters a fresh authorization with its request and binding. |
| SafetyPort.UpgradeSafetyPort.Consume | distribution/state_safety.py:162-171 | Takes the entry out before checking anything, then checks request and binding. |
| SafetyPort.AcceptedExactly | distribution/state_safety.py:156-171 | Over every run, with Control state changing between calls: a presentation is accepted if and only if that authorization was handed out for the same request, has not been presented since, and both looks found the same. |
| SafetyPort.PresentingBurns | distribution/state_safety.py:162-169 | Presenting an authorization, accepted or not, makes every later presentation of it fail. |
| SafetyPort.AcceptedOnce | distribution/state_safety.py:162-171 | Each authorization succeeds at most once. |
| SafetyPort.BindingMeans | distribution/state_safety.py:183-232 | A look binds the state exactly when it is settled, migrated, covered by a proof that names the same schema, fingerprint, companion and roots, restored recently, and of a schema the candidate reads; nothing else is refused. |
| SafetyPort.NoStateMeans | distribution/state_safety.py:183-196 | It binds nothing, and goes on, exactly when neither database nor companion exists. |
| SafetyPort.EqualBindingsPinState | distribution/state_safety.py:170-171 | Two looks with equal bindings saw the same schema rows, migrations, companion bytes, enabled roots and proof. |
| SafetyPort.FreshAgrees | distribution/state_safety.py:66-95 | The backup-backed port authorizes without a proof exactly when the fresh port authorizes. |
| SafetyPort.GateMeans | distribution/install.py:1384-1387 | Authorize, re-read the pointer, consume: passes exactly when the pointer held and both looks agreed, whatever the port had handed out before, and leaves earlier entries alone. |
| MemberNames.SafeExactly | cortex_platform/runtime_staging.py:610-623 | A member name is safe exactly when it has no NUL, is within the length and depth limits and has only clean components: the other checks follow. |
| MemberNames.SplitIsInjective | cortex_platform/runtime_staging.py:610-623 | Different names are different paths, so comparing names detects every path written twice. |
| MemberNames.SplitExactly | cortex_platform/runtime_staging.py:616-616 | A name's path is the one way to cut it at its slashes. |
| MemberNames.SafeNeverClimbs | cortex_platform/runtime_staging.py:610-623 | No prefix of a safe path leaves the directory it is created in. |
| Extraction.PythonTree.MakeDirectory | cortex_platform/runtime_staging.py:710-721 | Succeeds exactly when no file lies on the path, and then adds exactly the missing directories. |
| Extraction.PythonTree.Extract | cortex_platform/runtime_staging.py:626-707 | Succeeds exactly on extractable archives: limits, safe distinct names, no file at or above another member; then the tree is exactly the members and the directories above them, and the executables are those marked so. |
| Extraction.OrderIrrelevant | cortex_platform/runtime_staging.py:642-704 | Whether an archive is extractable does not depend on the order of its members. |
| Extraction.SameTree | cortex_platform/runtime_staging.py:642-704 | Both orders lead to the same tree. |
| Extraction.PythonTree.Seal | cortex_platform/runtime_staging.py:765-799 | Sealing gives every entry its mode, keeps contents, and succeeds exactly when all entries are owned and no file has a second link. |
| Extraction.SealedPasses | cortex_platform/runtime_staging.py:817-854 | A sealed extraction passes every mode, link and owner check of the reuse test. |
| Extraction.PythonTree.AssertStaged | cortex_platform/runtime_staging.py:817-858 | The reuse check passes exactly on published, sealed trees that match the profile. |
| Extraction.PythonTree.Stage | cortex_platform/runtime_staging.py:945-992 | Staging succeeds exactly when nothing is at the destination, the archive is extractable, holds what the profile asks for and passes inspection; the destination then passes the reuse check, holds the rewritten contents, and has mode 0o500 on folders and on exactly the members marked executable, 0o400 on all others. A death between the rename and the last mode change, and nothing else, leaves a destination that neither staging nor reuse accepts. |
| JsonScan.ScanValue | tools/evaluate_retrieval.py:518-562 | The recursive scan finds the one parse tree that starts at the position and exactly its string values, or reports failure exactly when there is no tree within the depth limit and without repeated keys. |
| JsonScan.ScanObject | tools/evaluate_retrieval.py:524-543 | The same for an object and its members. |
| JsonScan.ScanArray | tools/evaluate_retrieval.py:544-555 | The same for an array and its elements. |
| JsonSpans.SpansPlaced | tools/evaluate_retrieval.py:556-559 | The recorded spans are increasing, disjoint, inside their value and strictly inside their quotes. |
| JsonSpans.PathsDistinct | tools/evaluate_retrieval.py:524-559 | No two string values of an accepted document have the same path. |
| JsonGrammar.SpansAreAddressed | tools/evaluate_retrieval.py:524-559 | The recorded values are exactly the string values of the tree, each under the path that leads to it by keys and positions. |
| JsonGrammar.ScalarMeans | tools/evaluate_retrieval.py:560-561 | A scalar is read exactly where `null`, `true`, `false` or a number of RFC 8259, section 6, stands, and is the longest that does. |
| JsonGrammar.StringMeans | tools/evaluate_retrieval.py:531-531 | A string is read exactly where the grammar of RFC 8259, section 7, has one, and stands for its characters, two escaped surrogates for one. |
| JsonStrings.EscapesAgree | tools/evaluate_retrieval.py:102-102 | The walker's table of escapes is the scanner's. |
| Utf8.ByteOffsets | tools/evaluate_retrieval.py:565-570 | Incremental translation yields for every position the byte length of the encoded prefix. |
| Utf8.RangeSlices | tools/evaluate_retrieval.py:565-570 | Slicing the encoded text at translated positions gives the encoding of that character range. |
| Utf8.EncodeInjective | tools/evaluate_retrieval.py:588-590 | Bytes decode to at most one text. |
| Utf8.CharBytesStandard | tools/evaluate_retrieval.py:565-570 | Each character is encoded as section 3 of RFC 3629 has it: as few bytes as its code point allows, the first telling how many. |
| Grounding.GroundingRanges | tools/evaluate_retrieval.py:573-614 | Ranges are known exactly when the text is laid out as one object, fenced or not, and then they are those of its wanted string values. |
| Grounding.LayoutMeans | tools/evaluate_retrieval.py:593-600 | The object begins where one of two layouts says: behind blanks, or behind blanks and a fence line with nothing else visible on it. |
| Grounding.VisibleIsStripped | tools/evaluate_retrieval.py:608-608 | A value counts exactly when something is left of it once it is stripped. |
| Grounding.GroundingFaithful | tools/evaluate_retrieval.py:608-614 | For every document and target the byte ranges are increasing and disjoint, each decodes to exactly the characters between one wanted value's quotes, and every wanted value has one. |
| Grounding.JsonCharacters | tools/evaluate_retrieval.py:711-722 | The decoded characters of a validated body tile its range, each at the byte positions of its own piece. |
| Grounding.RangeReadsValue | tools/evaluate_retrieval.py:711-722 | The characters walked over inside a value's range, surrogate pairs joined, are the value the scan had read. |
| JsonStrings.CharactersAreValue | tools/evaluate_retrieval.py:711-722 | The characters read one by one, surrogate pairs joined, are the value the string scanner returned. |

## Left out

- Temporary files of the atomic JSON writer: one atomic step; a crash inside it leaves a file that later checks refuse.
- A torn journal is a third state in which every section is refused; how an operator clears it is not modelled.
- Foreign entries in the installation root and the lock file itself: the model has the installer's own names only.
- File modes, ownership, access lists, links and `fsync` in the installer: ordered durable steps and nothing else.
- Digests are injective, a pointer's version string names one digest, and verifying a generation succeeds exactly when it is present and whole.
- The order in which a directory inside the trash is emptied: one step per owned name.
- Health checks, product path resolution and schema probes of the installer: inputs that may come out either way.
- Signals and exceptions of the operating system between two durable steps: an exception or a death may strike between any two steps, nothing finer.
- Reading versions, specifiers, and requirements from text: the models start from parsed values; marker text is modelled.
- Closure.ProveClosure: does not model name normalisation, the sorting of the results or the reading of wheel files, which do not affect what is proved.
- `parse_requirements_hashes` and archive formats: a lock is a map from names to digests.
- The Web closure, software bill of materials, provenance literals and recorded build commands of `distribution/bundle.py`: equality with fixed data.
- InlineScan.InlineRanges: does not model the cost of single steps; how often it searches in vain is bounded. Block boundaries, raw lines and the tag pattern are given.
- Lifecycle.AtMostOneSupervisor: does not cover supervisors run as a service, which take no lifecycle lock, nor a start whose own process dies before its clean-up.
- Lifecycle.StopBindsCleanup: does not model the pace at which cleanup works towards its deadline; messages of other senders do not carry the run's claim, which is secret.
- Lifecycle.AcknowledgedStops: takes the reading and the answering of a request as one step; the half-second read limit and the checks of the socket's own mode are left out.
- Process observation that cannot decide ends the operation; how processes are observed, sockets and start tokens are not modelled.
- Status, doctor and readiness probes of the lifecycle: they change nothing.
- Which of several errors is reported when more than one applies follows the order of the checks in the code and is stated only where a row says so.
- SafetyPort.UpgradeSafetyPort.Consume: an authorization is a number never handed out twice; the reuse of object identities after collection is excluded by the table itself, which keeps its authorizations alive.
- InstallUpgrades.UpgradeRetry: has attempts that stage or discard; an attempt that dies in its commit section is covered by InstallUpgrades.UpgradeAccepted on the root it leaves.
- SQLite reading, hashing and JSON parsing of a proof manifest: given as parsed values; pruning of backup sets is easy and left out.
- Extraction.PythonTree.Extract: writes a member's bytes at once instead of in chunks, and takes a case-sensitive file system; archive parsing is given as a list of members.
- Extraction.PythonTree.Stage: takes the rewritten contents of the patched files as given, and the outcome of the rewriting, of the probe and of the linkage inspection as inputs; the check of the bound stage root is left out.
- JsonScan.ScanValue: returns the spans instead of appending to a list, and does not model the interpreter's limit on the digits of a whole number.
- The front-matter pattern of grounding documents: where it ends is an input; the Markdown mirror and section ranges belong to the block model.
- Fetching, fonts, the release record, path and settings resolvers: they would only add easy members.
