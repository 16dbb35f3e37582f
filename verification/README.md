# Fixture builders, checkers and evidence accounting: a verified model

This project models the scripts of the repository that build hash-chained conversation transcripts, check them, and
account for conformance evidence, and proves what those scripts are relied on for.

* **Hash chains** (`Chains`, `ChainLoops`, `CoreBuilders`). A message is its content, a link to the hash of the message
  before it, its signatures and its own hash. The hash is a parameter of every definition; the theorems that need it to
  be injective say so. `Chain` is the one pure specification; six differently written loops, over message objects or over
  copies, are proved against it, each with the exact condition under which it computes that chain.
* **Checkers** (`Checkers`, `Reports`). The two loops that check a transcript, exactly what each reports and accepts, where
  they differ, why the last hash fixes the whole transcript, and the report after each kind of corruption.
* **Patch and refinalize** (`Patching`, `PatchedBuilders`). Builders that finalize a draft, copy hashes into later rows and
  finalize again: the unique solution, what one pass achieves, convergence, and the concrete builders as instances.
* **Negotiation builder** (`Negotiation`, `NegotiationRuns`, `NegotiationTheorems`, `Refresh`, `BuiltMessages`,
  `AppendedMessages`, `Negotiators`, `Numerals`). The append steps as a step system on values, the invariant of every run,
  what each message says field by field, when refreshing a proposal of an edited transcript restores the invariant, and a
  class that rehashes its message objects in place and is proved to take the same steps.
* **Import closure** (`ImportClosure`), **generated sections** (`Sections`, `SectionBlocks`, `Markers`), **bundle integrity**
  (`ByteStrings`, `Newlines`, `Bundle`), **suite references, marks and interop evidence** (`SuiteRefs`, `Evidence`,
  `InteropEvidence`), **profile composition** (`Sorting`, `Composition`, `Registry`) and **base64url** (`Base64`).

Where a property holds only under a condition, the condition is part of an if-and-only-if, or a lemma gives an input for
which it fails (`Composition.AmbiguousRefs`, `SectionBlocks.WriteOrderMatters`, `Newlines.OrderMatters`).

Code and intent differ in a few places; the model follows the code. The two loops named `finalize` and `add_hashes` hash
signatures along with the body, and `finalize` keeps a link found on the first row
(`ChainLoops.RawChainIsChain`, `Checkers.RawChainChecked`). The rejection and superseding steps of the negotiation builder
rehash without naming signers and so drop every signature (`NegotiationTheorems.StepSignatures`). A manifest that tracks its
own file is built without complaint and can never validate (`Bundle.ValidExactly`). A checkout that mixes line ends can
make one line end of two, and then the digest changes (`Newlines.MixedEndsMerge`, `Bundle.VerdictAfterCheckout`).
Refreshing a proposal can leave a projection or a revision with a hash no message has any more
(`Refresh.ProjectionGoesStale`). Of two generated sections the order of writing can matter
(`SectionBlocks.ReplaceCommutes`). A compatibility mark shared by two profiles counts for the later one only
(`InteropEvidence.ProfileShownExactly`).

To check the project: `dafny verify dfyconfig.toml`.

## Model

| member | source | states |
|---|---|---|
| Chains.ChainUnique | scripts/generate_capneg_v02_fixtures.py:136-148 | A transcript is unsigned, every message stores its own hash and links to the hash before it (the first to nothing) if and only if it is the one chain of its contents |
| Chains.ChainIdempotent | scripts/generate_capneg_v02_fixtures.py:130-149 | Rehashing an already rehashed transcript gives it back, contents untouched |
| Chains.HashOfPrefix | scripts/generate_capneg_v02_fixtures.py:136-148 | Message i and its hash depend only on the contents up to i, so later appends and edits never disturb a captured hash |
| Chains.HashNamesHistory | scripts/generate_capneg_v02_fixtures.py:136-148 | With an injective hash, two messages of any two chains, at any positions, have equal hashes if and only if everything up to them is equal |
| Chains.SealedExact | scripts/generate_capneg_v02_fixtures.py:130-149 | The rehash with signatures is the only chain of these contents on which the messages with the given ids carry exactly one signature, by their sender over their own hash, and the others none |
| ChainLoops.Rehash | scripts/generate_capneg_v02_fixtures.py:130-149 | The clear-and-refill loop turns the list, in place, into the chain of its contents with exactly the named messages signed, each by its sender over its own hash |
| ChainLoops.RehashInPlace | scripts/generate_core_v02_fixtures.py:113-128 | The in-place loop of the core generator computes the same chain and leaves each message its signatures |
| ChainLoops.RelinkedExact | scripts/generate_core_v02_fixtures.py:113-128 | That result is the only chain with the same contents and the same signatures |
| ChainLoops.AddHashes | scripts/generate_m30_supply_chain_fixtures.py:18-28 | The in-place loop that hashes signatures in: what it leaves on any rows |
| ChainLoops.Finalize | scripts/generate_transcript_witness_fixtures.py:16-27 | The copying loop that also keeps a link on the first row: what it returns on any rows (the same loop as in the reception-chat generator) |
| ChainLoops.RawChainExact | scripts/generate_transcript_witness_fixtures.py:16-27 | What these two loops leave is fixed by this: contents and signatures as they were, each row hashed with its signatures and linked to the hash before it, the first row keeping its link or losing it |
| ChainLoops.RawChainIsChain | scripts/generate_reception_chat_semantics_fixtures.py:13-24 | These last two loops compute the chain if and only if no row is signed and, for finalize, the first row carries no link |
| ChainLoops.GenerateSignedTranscript | scripts/generate_signed_transcript.py:46-93 | Succeeds if and only if every sender is present and has a key entry with a key id and a secret; the result is the chain on which every message carries one signature by its sender, under that key id, over its own hash; else the error is that of the first row that cannot be signed, and names what is missing there |
| ChainLoops.RehashAndSign | scripts/generate_authenticated_base_fixtures.py:52-65 | The copying loop of the authenticated fixtures computes that same signed chain |
| ChainLoops.SignAllExact | scripts/generate_authenticated_base_fixtures.py:52-65 | That is the only chain of these contents with one such signature on every message |
| ChainLoops.SignAllIdempotent | scripts/generate_signed_transcript.py:53-93 | Signing a signed transcript again returns it unchanged, signing being deterministic (RFC 8032, section 5.1.6) |
| ChainLoops.BuildersAgree | scripts/generate_signed_transcript.py:53-93 | All six loops give one and the same chain, signatures aside, on unsigned rows whose first row carries no link |
| Checkers.SandboxCheck | sandbox/run.py:79-108 | The sandbox loop reports, message by message and in this order, a changed session, a repeated id, a link that differs from a non-null previous hash, and a wrong hash |
| Checkers.CoreCheck | scripts/validate_core_v02_transcript.py:68-92 | The core loop reports every link after the first that differs from the stored hash before it, and every wrong hash |
| Checkers.SandboxExact | sandbox/run.py:79-108 | The sandbox report is fixed by this: a failure is in it if and only if the message has that fault, message by message and, of one message, session before id before link before hash, none twice |
| Checkers.CoreExact | scripts/validate_core_v02_transcript.py:68-92 | The same of the core report, link before hash |
| Checkers.CoreAccepts | scripts/validate_core_v02_transcript.py:86-92 | It accepts if and only if every stored hash is the message's own and every link but the first is the hash before it |
| Checkers.SandboxAccepts | sandbox/run.py:80-108 | It accepts if and only if, besides, the session is constant and the ids are pairwise distinct |
| Checkers.CheckersDiffer | sandbox/run.py:97-100 | Per message: the same hash failures; a link failure only the core loop reports occurs exactly where the message before has lost its hash and this one still carries a link |
| Checkers.CheckersAgree | scripts/validate_core_v02_transcript.py:86-92 | Nevertheless the core loop accepts a transcript if and only if the sandbox loop reports no hash or link failure in it |
| Checkers.ChainPasses | scripts/generate_capneg_v02_fixtures.py:136-148 | What the rehashing loops build, signed or not, has every hash and link in order |
| Checkers.RawChainChecked | scripts/generate_m30_supply_chain_fixtures.py:18-28 | A row hashed together with its signatures is reported as a wrong hash if and only if it carries some; no link is ever reported |
| Checkers.SameHeadSuffix | sandbox/run.py:84-108 | With an injective hash, of two accepted transcripts with the same last hash the body sequence of one is a suffix of that of the other |
| Checkers.SameHeadEqual | sandbox/run.py:84-108 | When neither first message carries a link, equal last hashes mean equal transcripts, signatures aside, and conversely |
| Checkers.Exchanged | sandbox/run.py:97-108 | Both checkers' complete reports after one message of an accepted transcript is exchanged for any other of the same session and id |
| Checkers.OverwrittenHash | scripts/generate_core_v02_fixtures.py:659-672 | A stored hash overwritten: exactly one hash failure there and one link failure at the next message, if there is one |
| Checkers.RemovedHash | sandbox/run.py:97-108 | A stored hash removed: the sandbox loop reports only the hash, the core loop also the next link |
| Checkers.ChangedContent | sandbox/run.py:103-107 | Hashed content changed and nothing else: exactly one hash failure |
| Checkers.OverwrittenLink | scripts/generate_core_v02_fixtures.py:674-689 | A link overwritten and that message rehashed: exactly a link failure there and one at the next message, if there is one |
| Checkers.DroppedMessage | sandbox/run.py:97-100 | A message cut out of the middle: exactly one link failure, at the gap |
| Checkers.StretchPasses | sandbox/run.py:80-108 | Any contiguous stretch of an accepted transcript is accepted: neither the start nor the end is checked |
| Checkers.RepairCase09 | scripts/generate_authenticated_base_fixtures.py:106-119 | The repair loop leaves contents as they were, every message self-hashed and signed over its hash by its sender, and exactly one failure for either checker: the missing link at index 1 |
| Patching.SolveUnique | scripts/generate_transcript_witness_fixtures.py:92-100 | For references that point strictly backwards there is exactly one content in which every reference equals its target's final hash and nothing else differs |
| Patching.PassAdvances | scripts/generate_transcript_witness_fixtures.py:92-95 | One pass of copying hashes and refinalizing never undoes a final row, and makes final the next rows whose sources already were |
| Patching.PassRight | scripts/generate_transcript_witness_fixtures.py:97-100 | A reference written in a pass is the target's final hash if and only if everything up to the target was already final |
| Patching.RoundsAdvance | scripts/generate_transcript_witness_fixtures.py:92-100 | Each full round makes one more prefix position permanently final, whatever the placeholders were |
| Patching.RoundsConverge | scripts/generate_transcript_witness_fixtures.py:92-100 | n - 1 rounds reach the unique solution from any placeholders, and further rounds leave it |
| Patching.FixedPoint | scripts/generate_transcript_witness_fixtures.py:92-100 | A round changes nothing if and only if every reference is already right |
| Patching.ScheduleSolves | scripts/generate_transcript_witness_fixtures.py:92-100 | Passes over parts of the rows reach the solution when each takes in the rows whose sources are final by then |
| PatchedBuilders.Tw01 | scripts/generate_transcript_witness_fixtures.py:35-49 | For any rows: a head captured before the rows that need it exist, and one patch of finalized rows, give the chain of the solution |
| PatchedBuilders.Tw05 | scripts/generate_transcript_witness_fixtures.py:85-100 | For any rows: the two patches with references at depth two give the chain of the solution |
| PatchedBuilders.FinalizeReception | scripts/generate_reception_chat_semantics_fixtures.py:237-243 | For any eleven rows: patching one verdict and both hashes of one delivery gives the chain of the solution |
| PatchedBuilders.M30Baseline | scripts/generate_m30_supply_chain_fixtures.py:104-108 | In place: hash, patch two rows, rehash gives the chain of the solution |
| PatchedBuilders.M30Upgrade | scripts/generate_m30_supply_chain_fixtures.py:156-162 | In place: one captured hash written into two rows appended later, with a rehash after each, gives the chain of the solution |
| Negotiation.RehashContents | scripts/generate_capneg_v02_fixtures.py:130-149 | Rehashing, whoever is signed, changes no content |
| Numerals.DecimalExact | scripts/generate_capneg_v02_fixtures.py:164 | The decimal rendering is the one sequence of digits without a leading zero that reads as the number |
| Numerals.Examples | scripts/generate_capneg_v02_fixtures.py:164 | 7, 10 and 305 as they are written |
| Negotiation.MessageIdExact | scripts/generate_capneg_v02_fixtures.py:164 | The id of message n is "m" and the numeral that reads as n, and nothing else is |
| Negotiation.MessageIdInjective | scripts/generate_capneg_v02_fixtures.py:164 | Message ids m1, m2, ... of different positions differ |
| Negotiators.Negotiator.constructor | scripts/generate_capneg_v02_fixtures.py:250-494 | The imperative builder leaves what the specification of build_negotiation says, and its invariant holds |
| Negotiators.Negotiator.RehashKeepingSignatures | scripts/generate_capneg_v02_fixtures.py:682-688 | Collects the ids of the messages that are signed now and rehashes with these |
| Negotiators.Negotiator.AppendDecision | scripts/generate_capneg_v02_fixtures.py:691-728 | Appends a decision on the given proposal object, or on the last proposal, and rehashes; leaves the list alone when there is none |
| Negotiators.Negotiator.AppendNewNegotiation | scripts/generate_capneg_v02_fixtures.py:629-679 | Appends a proposal derived from the first one and one acceptance for each listed sender |
| Negotiators.Negotiator.AppendDeclarationSupersession | scripts/generate_capneg_v02_fixtures.py:731-751 | Appends a copy of the party's last declaration under the next capability id; leaves the list alone when there is none |
| Negotiators.Negotiator.AppendProjection | scripts/generate_capneg_v02_fixtures.py:754-803 | Appends a projection as of the given hash |
| Negotiators.Negotiator.AppendRejectionAndRevision | scripts/generate_capneg_v02_fixtures.py:497-575 | Appends a rejection of the first proposal, its revision and, if asked for, both acceptances |
| Negotiators.Negotiator.AppendSupersedingNegotiation | scripts/generate_capneg_v02_fixtures.py:578-626 | Appends a superseding proposal and both acceptances |
| Negotiators.Negotiator.RefreshProposal | scripts/generate_capneg_v02_fixtures.py:225-247 | Rehashes, binds one proposal to the declarations before it, rehashes; whatever state the messages were in, the class invariant holds afterwards exactly when ids, the messages before the proposal, the proposal's own fields and the references behind it are in order |
| Negotiators.Negotiator.ReviseOffers | scripts/generate_capneg_v02_fixtures.py:974-986 | New offers for the declarations in front of an open proposal and another selection for it, written into the messages, then the refresh: the class invariant holds again and the proposal is current |
| Negotiators.Negotiator.LatestDeclarations | scripts/generate_capneg_v02_fixtures.py:229-232 | The dictionary holds, for each party, its last declaration object among the first p messages |
| Negotiators.Negotiator.Perform | scripts/generate_capneg_v02_fixtures.py:497-803 | Class invariant: any step from any sound state either is refused, exactly when there is nothing to act on, and changes nothing, or does what its specification says; either way the invariant still holds and no earlier message is changed except in its signatures |
| NegotiationRuns.RehashAppend | scripts/generate_capneg_v02_fixtures.py:130-149 | Appending to a settled transcript and rehashing all of it leaves every earlier message as it was, signatures aside |
| NegotiationRuns.InOrderExact | scripts/generate_capneg_v02_fixtures.py:164 | The id clause of the invariant holds if and only if message i carries "m" and the numeral of i, counted from one |
| NegotiationRuns.AppendKeepsInv | scripts/generate_capneg_v02_fixtures.py:130-173 | One append and whole-list rehash keeps the invariant: ids exactly m1..mn, a valid chain, signatures bound to their message; sessions, declared predecessors, bindings, decisions, contract proposals and result and state hashes grounded in what comes before (the as-of and head hashes of projections and the superseded hash of a revision are spoken of by RunKeepsNames and CapturedHash) |
| NegotiationRuns.PreservingAppend | scripts/generate_capneg_v02_fixtures.py:682-688 | After an append to a transcript of a run it keeps earlier messages whole, and signs the new one if and only if the appended object carried a signature |
| NegotiationRuns.PreservingRehash | scripts/generate_capneg_v02_fixtures.py:682-688 | On any transcript: the preserving rehash leaves the set of signed ids as it was, and every message signed or not as it was if and only if no unsigned message shares its id with a signed one |
| NegotiationRuns.DecisionStep | scripts/generate_capneg_v02_fixtures.py:691-728 | The appended decision names its proposal's id, hash, revision, negotiation and result hash as they stand afterwards, and keeps every earlier message whole |
| NegotiationRuns.NewNegotiationStep | scripts/generate_capneg_v02_fixtures.py:629-679 | Message n+1 proposes the derived result as revision 1; messages n+2 on are the listed senders' acceptances, each bound to message n+1 as it finally stands |
| NegotiationRuns.SupersessionStep | scripts/generate_capneg_v02_fixtures.py:731-751 | The declaration appended is grounded in the one it supersedes, and signed if and only if the copied one was; earlier messages are kept whole |
| NegotiationRuns.ProjectionStep | scripts/generate_capneg_v02_fixtures.py:754-803 | The projection names the given hash, the given or defaulted branch head and the hash of the result it accepts |
| NegotiationRuns.AcceptancesKeepInv | scripts/generate_capneg_v02_fixtures.py:352-384 | Several acceptances appended before a single rehash keep the invariant and every earlier message |
| NegotiationRuns.AcceptancesBind | scripts/generate_capneg_v02_fixtures.py:358-378 | Each of them names the proposal as it stands after the rehash |
| NegotiationTheorems.RejectionStep | scripts/generate_capneg_v02_fixtures.py:497-575 | The rejection binds the first proposal; the revision names it as superseded by its final id and hash (or by the wrong hash asked for); the acceptances bind the revision |
| NegotiationTheorems.SupersedingStep | scripts/generate_capneg_v02_fixtures.py:578-626 | The new proposal supersedes the first negotiation by id and keeps its bindings; both acceptances bind it |
| AppendedMessages.Decided | scripts/generate_capneg_v02_fixtures.py:691-728 | The decision in full, about the given proposal or the last one |
| AppendedMessages.NewlyProposed | scripts/generate_capneg_v02_fixtures.py:629-679 | The derived proposal in full: what it takes over from the first proposal of revision 1 and what not |
| AppendedMessages.Superseded | scripts/generate_capneg_v02_fixtures.py:731-751 | The copied declaration in full |
| AppendedMessages.Projecting | scripts/generate_capneg_v02_fixtures.py:754-803 | The appended projection in full, with the defaulted branch head |
| AppendedMessages.RejectedThenRevised | scripts/generate_capneg_v02_fixtures.py:497-575 | The rejection and the revision in full |
| AppendedMessages.SupersedingProposal | scripts/generate_capneg_v02_fixtures.py:578-626 | The superseding proposal in full |
| NegotiationTheorems.RunSteps | scripts/generate_capneg_v02_fixtures.py:497-803 | A run takes its steps in order and stops where one is refused |
| NegotiationTheorems.StepKeepsInv | scripts/generate_capneg_v02_fixtures.py:497-803 | Every step keeps the invariant and every earlier message, signatures aside; it is refused if and only if it is a decision on no proposal or a supersession for a party that never declared |
| NegotiationTheorems.StepSignatures | scripts/generate_capneg_v02_fixtures.py:497-803 | Afterwards no message is signed if the step is one of the two that rehash without naming signers; otherwise what was there is signed as before, and what was appended only as the copy of a signed declaration |
| NegotiationTheorems.RunKeepsInv | scripts/generate_capneg_v02_fixtures.py:497-803 | Over any run of steps the invariant holds and nothing but signatures of earlier messages ever changes |
| NegotiationTheorems.BuiltInv | scripts/generate_capneg_v02_fixtures.py:250-494 | build_negotiation establishes the invariant; its projection names the hash of the message before it, and the proposal's result hash |
| NegotiationTheorems.BuiltProposal | scripts/generate_capneg_v02_fixtures.py:308-350 | Message 3 proposes a result bound to both declarations, with the hashes these finally have |
| NegotiationTheorems.BuiltAcceptances | scripts/generate_capneg_v02_fixtures.py:352-378 | Messages 4 and 5 (or 4 to 6) are the parties' acceptances, bound to message 3 as it finally stands |
| BuiltMessages.Declarations | scripts/generate_capneg_v02_fixtures.py:276-307 | Messages m1 and m2 in full: the declarations of both parties |
| BuiltMessages.Proposal | scripts/generate_capneg_v02_fixtures.py:308-351 | Message m3 in full: negotiation, session, contract, participants, the bindings in participant order and the selection |
| BuiltMessages.Acceptance | scripts/generate_capneg_v02_fixtures.py:352-384 | Each acceptance in full: its number, whose it is and what it accepts |
| BuiltMessages.Contract | scripts/generate_capneg_v02_fixtures.py:385-438 | The contract proposal and its acceptance in full, with senders, profiles and composition hash |
| BuiltMessages.Projected | scripts/generate_capneg_v02_fixtures.py:439-493 | The projection in full: the state, its hash and the head, the hash of the message before |
| BuiltMessages.LengthOf | scripts/generate_capneg_v02_fixtures.py:250-494 | How many messages there are for each combination of the options |
| NegotiationTheorems.BuiltSigned | scripts/generate_capneg_v02_fixtures.py:379-384 | After build_negotiation, contract and projection included, a message is signed if and only if it is an acceptance and signing was asked for |
| NegotiationTheorems.EveryRun | scripts/generate_capneg_v02_fixtures.py:250-803 | Every transcript any run of the builder can produce has the invariant; message i of it carries the id "m" and the numeral that reads as i, counted from one |
| NegotiationTheorems.RunKeepsNames | scripts/generate_capneg_v02_fixtures.py:497-803 | A message that carries another one's hash, be it as as-of, head, superseded, bound or decided hash, still does after any further run; a revision still revises its proposal |
| NegotiationTheorems.EveryRunProjection | scripts/generate_capneg_v02_fixtures.py:441-493 | At the end of every run the projection of build_negotiation names the message before it, and the result of the first proposal, by their hashes |
| NegotiationTheorems.EveryRunSignatures | scripts/generate_capneg_v02_fixtures.py:487-493 | Over runs of signature-preserving steps exactly the acceptances of build_negotiation carry a signature: one, by their sender, over their final hash |
| NegotiationTheorems.DecisionsBound | scripts/generate_capneg_v02_fixtures.py:704-713 | In every reachable transcript each decision names exactly one message: an earlier proposal, by the id, hash, revision, negotiation and result hash it has there |
| NegotiationTheorems.DeclarationsOneList | scripts/generate_capneg_v02_fixtures.py:731-751 | In every reachable transcript a party's declarations form one list, capability ids growing along it |
| NegotiationTheorems.DeclarationsUnforked | scripts/generate_capneg_v02_fixtures.py:740-748 | No two declarations of a party have the same capability id or supersede the same one |
| Refresh.RefreshBinds | scripts/generate_capneg_v02_fixtures.py:225-247 | On any transcript: afterwards the proposal has one binding for each participant that has declared before it, in the order of the participants, each naming the last declaration of its party by capability id, message id and the hash it now has, and a result hash to match; all other contents are unchanged |
| Refresh.RefreshRestores | scripts/generate_capneg_v02_fixtures.py:225-247 | On any transcript, whatever hashes, links, signatures, bindings and result hash it has: afterwards the proposal is current, and the invariant of the runs holds if and only if the ids are in order, the messages before the proposal, rehashed, have it, the proposal's session, contract and revision fit, and each later message is grounded in what is then before it; for a proposal in last place that is a condition on the contents alone |
| Refresh.RefreshTwice | scripts/generate_capneg_v02_fixtures.py:225-247 | The result depends on the contents alone, and refreshing again changes nothing |
| Refresh.CurrentBindingsHold | scripts/generate_capneg_v02_fixtures.py:234-243 | A binding is listed if and only if its party is a participant and it describes that party's last declaration |
| Refresh.RefreshKeepsInv | scripts/generate_capneg_v02_fixtures.py:225-247 | When the messages behind the proposal are grounded after a mere rehash, the refresh keeps them so if the proposal is current already or if no later decision, binding or contract proposal needs the old proposal or a hash behind it; with an injective hash, only then |
| Refresh.CapturedHash | scripts/generate_capneg_v02_fixtures.py:225-247 | The hash a message had before the refresh, as projections and revisions carry one, is still its hash if the message stands before the proposal or the proposal was current; otherwise, with an injective hash, it is no message's hash any more |
| Refresh.ProjectionGoesStale | scripts/generate_capneg_v02_fixtures.py:754-803 | A projection of a proposal that is not current names no message any more once that proposal is refreshed, though the invariant, which does not speak of as-of hashes, holds before and after |
| Refresh.EditedRefresh | scripts/generate_capneg_v02_fixtures.py:1314-1320 | Declarations and a proposal behind them, offers and selection edited at will and all hashes stale: refreshing the proposal restores the invariant |
| Refresh.RunAfterRefresh | scripts/generate_capneg_v02_fixtures.py:986-988 | Over any run after a refresh the invariant holds, nothing the refresh left is changed but signatures, and the proposal stays bound to the declarations before it |
| Refresh.EveryEditedRun | scripts/generate_capneg_v02_fixtures.py:971-988 | What build_negotiation returns without acceptances, edited at will and refreshed, followed by any run of append steps, has the invariant |
| Numerals.DecimalReadsBack | scripts/generate_capneg_v02_fixtures.py:164 | The decimal index in a message id reads back as the index |
| CoreBuilders.Builder.Add | scripts/generate_core_v02_fixtures.py:135-158 | Appends one message with the given sender, type and payload, next in number and linked to the last; every earlier message, its signatures included, stays as it was |
| CoreBuilders.Builder.SignMessage | scripts/generate_core_v02_fixtures.py:87-101 | Adds one signature over the hash the message has, and changes nothing else; the chain and all signatures stay bound |
| CoreBuilders.RelinkedAppend | scripts/generate_core_v02_fixtures.py:120-128 | Rehashing a whole chain after an append changes no earlier message |
| ImportClosure.DiscoverImportClosure | scripts/generate_pairwise_tck.py:133-144 | Terminates on every finite graph, cycles and repeated stack entries included; succeeds if and only if every reachable path is a file inside the root; the result is exactly the reachable paths, each once, ascending by code point; else the error is a reachable path that is not one |
| ImportClosure.ReachableUnion | scripts/generate_pairwise_tck.py:175-185 | The closure of several seeds is the union of the closures of each |
| ImportClosure.ClosureLeast | scripts/generate_pairwise_tck.py:133-144 | It is the least set that holds the seeds and is closed under imports, and closing it again adds nothing |
| ImportClosure.ResultUnique | scripts/generate_pairwise_tck.py:144 | Two ascending listings of the same paths are equal, so the result does not depend on the order of exploration |
| Sections.FindFirst | scripts/repo_truth.py:51-54 | The search finds the first occurrence at or after the start, or there is none |
| Sections.LocateExact | scripts/repo_truth.py:50-57 | A section spans from the first begin marker to the first end marker behind it, and is found if and only if both exist |
| Sections.ReplaceErrors | scripts/repo_truth.py:60-66 | Writing succeeds and reading gives something if and only if the section is found; the error names the begin marker if it does not occur, else the end marker |
| Sections.ExtractExact | scripts/repo_truth.py:57 | What is read is the text between the markers without the newlines and carriage returns around it, all of them and nothing else |
| Sections.TrimRightExact | scripts/repo_truth.py:68 | What is written is the content without the white space at its end, all of it and nothing else |
| Sections.IsSpaceExact | scripts/repo_truth.py:68 | White space is what `str.rstrip` takes for it: these 29 characters |
| Sections.Replaced | scripts/repo_truth.py:60-69 | Succeeds when both markers are found; the text outside the span is unchanged and the trimmed content stands between the markers on lines of its own |
| Sections.ExtractAfterReplace | scripts/repo_truth.py:50-69 | Reading a section after writing it gives the right-trimmed content without leading newlines if and only if that content does not hold the end marker |
| Sections.ReplaceIdempotent | scripts/repo_truth.py:60-69 | Writing the same content twice is writing it once, if and only if the same condition holds |
| SectionBlocks.EarlierStays | scripts/repo_truth.py:60-69 | A section before the one written stays where it was and reads as before |
| SectionBlocks.LaterMoves | scripts/repo_truth.py:60-69 | A section after the one written is found at the place it moved to if and only if its begin marker is not in the content written, and then it reads as before; else its begin marker is found inside that content |
| SectionBlocks.ReplaceCommutes | scripts/repo_truth.py:60-69 | Of two sections with disjoint spans, the order of writing does not matter, whatever is written to the later one, if and only if the content of the earlier one does not hold the begin marker of the later one; all the writes succeed |
| SectionBlocks.WriteOrderMatters | scripts/repo_truth.py:60-69 | A document and contents for which the order matters |
| SectionBlocks.WritesInTurn | scripts/repo_truth.py:1239-1254 | Blocks are written in the order given, each into what the ones before it left, up to the first that cannot be |
| SectionBlocks.WriteBlocks | scripts/repo_truth.py:1239-1254 | Writing one section after another gives what the successive replacements give, error included; when the sections lie apart and no content holds its own end marker or the begin marker of a section further down, every section reads as its own content in the end |
| Markers.MarkersIndependent | scripts/repo_truth.py:43-47 | Markers of profile ids without spaces or "<" occur in each other if and only if they are the same marker of the same id |
| Markers.LaidInOrder | scripts/repo_truth.py:50-57 | Sections written one behind another, under markers none of which starts another and with no other "<" around, are each found where they stand, and lie apart in that order |
| Markers.ProfileDocument | scripts/repo_truth.py:1239-1254 | A profile document with one block for each of several distinct ids behind the status table is laid out as the writing loop needs it |
| Newlines.NormalizeIsOnePass | scripts/generate_pairwise_tck.py:51-55 | The two replacements in sequence equal one scan in which CRLF, CR and LF each end a line |
| Newlines.LineEnds | scripts/interop_submission_validation.py:517-518 | In bytes: 13 10, 13 alone and 10 alone each become 10 |
| Newlines.NormalizeFixes | scripts/generate_pairwise_tck.py:51-55 | Text is left alone if and only if it has no carriage return; normalizing twice is normalizing once |
| Newlines.NormalizeCheckout | scripts/generate_pairwise_tck.py:68-71 | Normalized text written out again, each line end kept, as CRLF or as CR at will, normalizes back to itself if and only if no line end written as CR is directly followed by one that is kept |
| Newlines.MixedEndsMerge | scripts/generate_pairwise_tck.py:51-55 | Of two line ends, the first written as CR and the second kept, one is left |
| Newlines.SameNormalForm | scripts/generate_pairwise_tck.py:51-55 | Two texts have the same normal form if and only if the one is such a writing of the normal form of the other, no two line ends merging |
| Newlines.OrderMatters | scripts/generate_pairwise_tck.py:51-55 | The replacements in the other order would turn one line end into two |
| Bundle.BuildManifest | scripts/interop_submission_validation.py:523-555 | Succeeds if and only if the algorithm is known, something is tracked and every tracked path is a file, and the error is the first of these that fails; one entry for each distinct path, in order of first mention, with the digest of its canonical bytes |
| Bundle.TextFiles | scripts/interop_submission_validation.py:517-518 | A path is digested as text if and only if its file name is a non-empty stem and one of .json, .jsonl, .md, .py, .ts, .mjs, .yml, .yaml in any letter case |
| Bundle.CheckEntries | scripts/interop_submission_validation.py:1494-1559 | The loop over the entries reports, entry by entry, exactly the first applicable fault of each |
| Bundle.Validate | scripts/interop_submission_validation.py:1494-1559 | Absent if and only if there is no manifest; for a manifest that can be read the complete list of faults, in order, and valid if and only if it is empty; invalid, with what is wrong with it, when it is no file or cannot be read |
| Bundle.FaultsExact | scripts/interop_submission_validation.py:1510-1527 | Of the header: a wrong submission and a wrong version, in this order, if and only if they differ; of a wrong algorithm only that is reported, else the faults of the entries follow |
| Bundle.EntryFaultsExact | scripts/interop_submission_validation.py:1529-1557 | Of each entry at most one fault: repeated path, own manifest, missing, not a file, wrong digest, each if and only if it applies and none before it does |
| Bundle.ValidExactly | scripts/interop_submission_validation.py:1494-1559 | With an injective digest, a built manifest validates in any later state of the files if and only if it is for the same submission, does not track itself, and every tracked path is still a file with the same canonical bytes; repetitions and untracked files do not matter |
| Bundle.CheckoutKeepsCanonical | scripts/interop_submission_validation.py:511-520 | A text file whose line ends are rewritten at will keeps its canonical bytes if and only if no two line ends merge; any other file must not change at all |
| Bundle.VerdictAfterCheckout | scripts/interop_submission_validation.py:1494-1559 | A bundle whose text files have their line ends rewritten at will still validates if and only if it does not track its own manifest and no tracked text file had two line ends merge |
| SuiteRefs.SuiteRefErrors | scripts/interop_submission_validation.py:779-812 | No error if and only if every claim has a catalog, the references are a list, each one means a required suite (the last whose path or id is spelled so), no two mean the same, and every required suite is meant; and each kind of error is reported if and only if its own condition fails: the claim without a catalog, the reference that means nothing, the suite meant twice, the union not met |
| SuiteRefs.RequiredExact | scripts/interop_submission_validation.py:782-793 | The required suites are the suites of the claims that have a catalog, claim by claim and suite by suite, those that are no text left out |
| SuiteRefs.AliasesExact | scripts/interop_submission_validation.py:786-796 | The alias table maps a name to the last required suite whose path or id is spelled so, and has no entry if and only if there is none |
| SuiteRefs.PathsStandForThemselves | scripts/interop_submission_validation.py:786-796 | A required path stands for itself unless a later required suite's id is spelled the same |
| Evidence.EvaluateProfileClaims | scripts/interop_submission_validation.py:1327-1387 | Eligible if and only if every claim is proved by some report; then the marks are exactly those of the claims' catalogs; otherwise there are none at all; the unproved claims are listed in their order, repetitions included |
| Evidence.EvaluateReportClaims | scripts/interop_submission_validation.py:1388-1487 | The same for capability and binding claims, each earning the marks of the first report that proves it |
| Evidence.MarksAreBacked | scripts/interop_submission_validation.py:1388-1487 | A mark is earned if and only if it is a mark of the first report that proves one of the claims |
| InteropEvidence.DeriveInteropEvidence | scripts/repo_truth.py:544-664 | The eligible submissions are those that show a mark, target or relation, the rejected ones the rest; a profile, capability or binding is listed, ascending and once, if and only if it is registered and some eligible submission shows it; relations are counted once each, and one flag for each profile says whether it is listed |
| InteropEvidence.ProfileShownExactly | scripts/repo_truth.py:457-475 | A profile counts as demonstrated if and only if a valid, eligible submission computed its mark and no later profile carries the same mark |
| Composition.CompositionCanonical | scripts/generate_capneg_v02_fixtures.py:176-180 | The canonical composition is the same for every order of the references if and only if no two different references have the same key |
| Composition.CompositionAscending | scripts/generate_capneg_v02_fixtures.py:176-180 | It holds the same references in ascending order of profile id, then version |
| Composition.RefKeyExact | scripts/capneg_v02_fixture_model.py:16-19 | What a reference is sorted by: the text of its two fields, the empty text for one that is missing or for what is no object |
| Composition.PlainRefsIdentify | scripts/capneg_v02_fixture_model.py:16-19 | References written as an id and a version meet that condition |
| Composition.AmbiguousRefs | scripts/capneg_v02_fixture_model.py:16-19 | Two different references with one key: a number and its text |
| Composition.CatalogFineExact | scripts/generate_profile_composition_registry.py:110-131 | A catalog passes if and only if its suites do not repeat and exist, exactly one of them is a core suite, that one has metadata, and the mark is a non-empty text |
| Composition.RelationLeExact | scripts/generate_profile_composition_registry.py:187-192 | The pairs are ordered by the first profile, then the second, by id, then version |
| Composition.RelationExact | scripts/generate_profile_composition_registry.py:173-192 | A pair of profiles is in the emitted relation if and only if the suites of the one are a strict subset of those of the other |
| Composition.RelationStrictOrder | scripts/generate_profile_composition_registry.py:173-192 | So the emitted relation is irreflexive and transitive |
| Composition.ReductionSound | scripts/generate_profile_composition_registry.py:173-192 | Dropping from any selection every profile that another selected one covers leaves the required suites the same and no covered pair |
| Registry.BuildRegistry | scripts/generate_profile_composition_registry.py:71-213 | Succeeds if and only if the registry and the catalogs pass all the checks; then emits, sorted by key, one record for each registered key, with the mark, the core suite's metadata and a sorted copy of the suites of its own catalog, sorted copies of the extensions, crypto profiles and policies of its own registry entry, negotiable if and only if its core suite is the supported one; two profiles are related if and only if the suites of the one catalog are a strict subset of those of the other |
| Registry.IdFitsExact | scripts/generate_profile_composition_registry.py:93-94 | An entry's id fits if and only if it is the profile id, an at sign and the version |
| Registry.EmittedDescribes | scripts/generate_profile_composition_registry.py:136-213 | Whatever the loops emit for inputs that pass, each record and each relation is what the registry entry and the catalog of that key say |
| Registry.EmittedUnique | scripts/generate_profile_composition_registry.py:71-213 | The inputs determine the document |
| Registry.OrderIndependent | scripts/generate_profile_composition_registry.py:86-160 | Success and document are the same for any order of the registry entries and of each profile's required suites |
| Sorting.SortSorts | scripts/generate_profile_composition_registry.py:107 | The sort returns a sorted rearrangement |
| Sorting.SortStable | scripts/generate_profile_composition_registry.py:107 | Items with equal keys keep their order |
| Sorting.StringLeExact | scripts/generate_pairwise_tck.py:144 | The order of texts: one is a prefix of the other, or at the first difference its code point is smaller |
| Sorting.PairLeExact | scripts/generate_profile_composition_registry.py:107 | The order of pairs: by the first component, then the second |
| Sorting.SortCanonicalOnlyIf | scripts/generate_capneg_v02_fixtures.py:179 | A stable sort by key is independent of input order if and only if equal keys mean equal items |
| Base64.RoundTrip | scripts/generate_signed_transcript.py:21-27 | Decoding after encoding gives back every byte string, so encodings of different bytes differ |
| Base64.PaddingRestored | scripts/generate_capneg_v02_fixtures.py:105-110 | The padding computed from the stripped length is exactly what was stripped; the stripped length is never 1 modulo 4 |
| Base64.FixedLengths | scripts/generate_signed_transcript.py:21-27 | 32 bytes take 43 characters, 64 bytes take 86 |
| Base64.EncodeExact | scripts/generate_signed_transcript.py:21-27 | The characters are the base-64 digits, in the URL-safe alphabet, of the number whose base-256 digits are the bytes, shifted by four bits or two when one byte or two are left over (RFC 4648, sections 4 and 5) |

## Left out

- JSON `null` in `message_hash`, `prev_msg_hash` and the identity fields is treated like a missing field.
- Canonical JSON, SHA-256 and Ed25519: hash, object hash and signing are parameters, signing a deterministic function; the object type written into a signature is a constant.
- Timestamps, `contract_ref`, the fixed literals of payloads and all fixture tables: content the loops only carry along.
- Aliasing inside one list: the heap methods require that no message object occurs twice in it, and builders that copy shallowly are modelled on values, so what they share with their caller's rows is not captured.
- Negotiators.Negotiator.AppendDecision: payload overrides, which serve to make broken fixtures, and proposal objects that are not in the list are not modelled.
- The `wrong` keys of `signature` and the rest of the fixture cases.
- Negotiators.Negotiator.constructor: the oracle lookup at the start of `build_negotiation` is left out; the resolved selection is a parameter, and its failures are not modelled; nor is a sender without a private key.
- Negotiators.Negotiator.AppendNewNegotiation: likewise, the new selection is a parameter.
- Evidence.EvaluateProfileClaims: what a report proves, with the dispatch on its format, is a parameter; the reducers, report evaluators and the pairwise router behind it are left out.
- Evidence.EvaluateReportClaims: likewise, and so are the marks a report is eligible for.
- Checkers.SandboxCheck: schema validation and signature verification, libraries outside the loop's own logic, report nothing here; of a failure only kind and position are modelled, not its text.
- Checkers.CoreCheck: likewise for the message, payload and contract schemas; the checks after its loop are left out.
- AST parsing, `_module_name` and `_resolve_module`: imports are a successor function, so both closure functions, whose loops are the same, share one model; symbolic links are resolved by assumption.
- The file system is a map; directories, missing files and files are told apart, other input errors are not. `suffix.lower()` folds ASCII letters only.
- The binding twin of the suite-reference check, the pairwise branch of the evidence evaluation and the checks before its claim loops.
- InteropEvidence.DeriveInteropEvidence: counts and release metadata read straight from other files, and targets whose id or version is missing, are left out.
- Registry.BuildRegistry: which failure is reported when several apply, and catalog files that are not objects or whose suites are not a list of strings, are left out; catalogs are taken in the order of their file names.
- Malformed input of the base64 decoder: the library's handling of characters outside the alphabet is not modelled, such input decodes to nothing.
- PatchedBuilders.Tw01: the rows are parameters, required to be unsigned with no link on the first, as the source's literals are; the same holds for the other patched builders.
- Checkers.RepairCase09: asks for two rows at least, as the source, which indexes the second row, does.
- Sections.ExtractAfterReplace: asks for markers that are not empty and hold no newline, as all callers' markers are.
