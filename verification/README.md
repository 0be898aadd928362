# Proofs about the MNCS harness

The harness routes AI work across workers. Its hardest code decides who may act, where work may run, and which model
weights an experiment owns. This project models that code in Dafny 4.11 and proves what the decisions mean, what every run
of the stateful parts keeps, and where a promise holds only under a condition, exactly that condition.

Run `dafny verify dfyconfig.toml` in this directory.

- **Lattices and kernels** (`Lattice`, `MncsExec`). Verdicts, grants and readiness states are finite join semilattices. The
  chunked evaluations (eight wide, four wide, pairwise, padded with the neutral value) equal the plain fold on lists of
  every length, so they are order independent, monotone and distribute over concatenation.
- **Atlas authority** (`RequirementLoad`, `LoadLaws`, `LoadTimes`, `RequirementIdentity`, `AtlasBinding`, `AtlasLaws`,
  `FabricTargetTools`, `Tools`). From loading a signed requirement envelope, over deciding a leg and gating a dispatch or
  a tool, to confirming the placement that happened. Nothing is granted that was not authenticated, and every effect of
  every run of the tool registry rests on a covering binding in force at that moment.
- **Residency** (`Residency`, `Reconcile`). Experiments own exactly the weights they brought in, over any number of
  re-preparations; the background sweep is independent of the order in which its pool finishes.
- **Placement** (`ModelSelection`, `Placement`, `ResolutionLaws`, `PlacementLaws`, `InventorySession`). What every request
  resolves to; the chosen worker really reports the chosen model, pins never drift, listing order does not matter; the
  inventory cache and the capability codec.
- **Configuration edits** (`TomlProfile`, `TomlLaws`, `ControllerLight`). The in-place TOML editor against a reference
  reading of the file, and a whole profile as a chain of edits.
- **Bounded escalation and readiness** (`Router`, `Agent`, `ExperimentReadiness`, `ReadinessLaws`). Nested agent
  loops with their call bound, and the readiness evaluator whose layers must agree.

Where the code is imperative the model is: loops keep their shape and objects with updated fields are classes whose methods
are proved against a specification function; the laws are then lemmas about that function.

## What is true only under a condition

- Releasing an experiment takes a pair it brought in away if and only if no re-preparation dropped that pair
  (`Residency.ReleaseRestoresPair`). A pair dropped in a later round stays loaded, because its lease is no longer among
  the results; the others are released all the same. A single preparation is always undone.
- A dispatched call can report success although Fabric's evidence does not name the leg's target, exactly when the worker's
  proof lapsed between gate and confirmation (`FabricTargetTools.UnconfirmedSuccessExactly`).
- The load times at which one attestation is admitted form an interval exactly when it was not issued before the epoch
  (`MncsExec.WindowIsAnIntervalExactly`). The comments at mncs/harness_freshness.mncs:17-20 and 32-33 say the wrapping
  subtraction cannot wrap; it does once the two instants are 2^63 apart, and the model follows the code. So the load
  times at which a leg is GRANTED form an interval, whatever Atlas decides, exactly when every genuine attestation the leg
  carries was issued since the epoch (`LoadTimes.GrantedTimesExactly`); any other attestations give one up to the
  time a window wraps (`LoadTimes.GrantedTimesConvex`).
- Two legs of one name break the interval of load times and keep their order in the identity
  (`LoadTimes.SharedNameBreaksTheInterval`, `RequirementIdentity.SameNamedLegsKeepOrder`).
- An extra decision can raise a verdict in two ways only, a first decision on its capability or a further authorization of
  the leg's own target (`AtlasLaws.FirstDecisionRaises`, `AtlasLaws.FurtherTargetRaises`).
- A worker pin may select a model its inventory reports only with surrounding whitespace
  (`PlacementLaws.PaddedNameIsNotReported`), exactly when a pinnable row reports a padded name without its stripped twin
  (`PlacementLaws.VerbatimExactly`).
- Every model pin, whatever is resident, rests on an AVAILABLE and CURRENT row that reports the model exactly when each
  row the ranking can pick has such a row under its id (`PlacementLaws.ModelPinsFreshExactly`). Distinct row ids give that
  (`PlacementLaws.ModelPinIsFresh`); a repeated id can lend its freshness to a STALE report
  (`PlacementLaws.RepeatedIdPinsStale`).
- The order of workers never matters to placing the configured model, nor does the order of models in an inventory that
  reports each in one state (`PlacementLaws.ConfiguredPlacementForgetsOrder`); it matters to the fallback choice when
  same-named models disagree (`PlacementLaws.DisagreeingListingsMatter`).
- A worker named `*` is in both inventory tables exactly when the worker list cannot be read while it has an inventory
  (`InventorySession.TablesCollideExactly`).
- A value upserted into a TOML table reads back unless an array-of-tables header stands in the table's body and the key is
  not set before it (`TomlLaws.ReadBackExactly`). Such an array can lose or gain the key itself
  (`TomlLaws.ArrayLosesKey`); when it does not is `TomlLaws.ArrayKeepsKeyExactly`, and every other key and table is
  always kept (`TomlLaws.UpsertKeepsTheRest`). Key removal strips the table exactly when no key line stands behind a
  commented header, of a table or of an array, that it misses (`TomlLaws.RemovalStripsExactly`).
- An attempt whose provider failed with an empty message is not failed for it (`Agent.PassedExactly`).

## Model

| member | source | states |
|---|---|---|
| Lattice.FoldConcat | mncs/harness_verdict.mncs:43-48 | folding a concatenation is joining the two folds |
| Lattice.FoldPadding | src/mncs_harness/mncs_exec.py:158-200 | padding with the neutral verdict never shows |
| Lattice.FoldBounds | mncs/harness_readiness.mncs:40-45 | the fold is above every element |
| Lattice.FoldLeast | mncs/harness_readiness.mncs:40-45 | the fold is below every common upper bound |
| Lattice.FoldForgetsOrder | mncs/harness_atlas.mncs:30-40 | lists with the same elements, in any order and multiplicity, fold to one verdict |
| Lattice.FoldMonotone | mncs/harness_verdict.mncs:43-48 | pointwise worse inputs never fold to a better verdict |
| MncsExec.KernelLattices | mncs/harness_verdict.mncs:24-34 | the three kernel joins are semilattices with their neutral verdicts |
| MncsExec.CombineAllWorst | src/mncs_harness/verifiers.py:98-106 | the verdict fold is FAIL over UNKNOWN over PASS |
| MncsExec.FoldGrantsWorst | mncs/harness_atlas.mncs:35-40 | the grant fold is REFUSED over UNKNOWN over GRANTED |
| MncsExec.FoldLayersWorst | src/mncs_harness/experiment_readiness.py:153-160 | the readiness fold is BLOCKED over UNKNOWN over DEGRADED over READY |
| MncsExec.Combine | src/mncs_harness/mncs_exec.py:158-166 | fails exactly on a string other than "PASS", "UNKNOWN" and "FAIL", and else reads FAIL if "FAIL" is among them, UNKNOWN if "UNKNOWN" is, PASS otherwise |
| MncsExec.CombineMarshalled | src/mncs_harness/mncs_exec.py:168-200 | eight-wide chunks and shrinking four-wide groups equal the plain fold for every length |
| MncsExec.CombineChunks | src/mncs_harness/mncs_exec.py:170-180 | the padded eight-wide chunks keep the fold of the whole list |
| MncsExec.CombineGroups | src/mncs_harness/mncs_exec.py:181-192 | one shrinking round keeps the fold and quarters the length |
| MncsExec.FoldDecisions | src/mncs_harness/mncs_exec.py:223-243 | fails exactly on a string other than "GRANTED", "UNKNOWN" and "REFUSED", and else reads the worst one present |
| MncsExec.FoldMarshalled | src/mncs_harness/mncs_exec.py:223-243 | four-wide groups and a pairwise walk equal the plain fold for every length |
| MncsExec.FoldPairs | src/mncs_harness/mncs_exec.py:217-243 | the pairwise walk over non-empty partial grants is their fold |
| MncsExec.FoldReadiness | src/mncs_harness/mncs_exec.py:371-415 | fails exactly on a string other than the four readiness names, and else reads the worst one present |
| MncsExec.FoldLayersMarshalled | src/mncs_harness/mncs_exec.py:371-415 | an eight- or four-wide head and a four-wide tail equal the plain fold for every length |
| MncsExec.FoldTail | src/mncs_harness/mncs_exec.py:403-415 | the shrinking tail completes the fold of the whole list and terminates |
| MncsExec.VerdictsForgetOrder | src/mncs_harness/mncs_exec.py:158-200 | the verdict of checks ignores their order and repetition |
| MncsExec.GrantsForgetOrder | src/mncs_harness/mncs_exec.py:223-243 | the verdict of decisions ignores their order and repetition |
| MncsExec.LayersForgetOrder | src/mncs_harness/mncs_exec.py:371-415 | the verdict of layers ignores their order and repetition |
| MncsExec.FoldsMonotone | src/mncs_harness/mncs_exec.py:158-415 | a worse input never improves any of the three folds |
| MncsExec.WindowMeansAge | mncs/harness_freshness.mncs:28-35 | the 64-bit window is the age test exactly until its subtraction wraps |
| MncsExec.WindowIsAnIntervalExactly | mncs/harness_freshness.mncs:25-35 | the instants admitting one attestation form an interval exactly when it was not issued before the epoch |
| RequirementIdentity.IdentityBodyExactly | src/mncs_harness/atlas_binding.py:244-288 | the identity body field by field, with sorted digests, legs in ascending order of name and each leg with its sorted needs |
| RequirementIdentity.EqualBodiesForceEqualMaterial | src/mncs_harness/atlas_binding.py:244-288 | equal identity bodies force equal task, source, artifact, session and bounds, equal digest multisets, and equal legs with evidence up to need order |
| RequirementIdentity.IdentityForgetsExactlyOrder | src/mncs_harness/atlas_binding.py:244-288 | with distinct leg names the body forgets the orders of digests, legs and needs and nothing else |
| RequirementIdentity.RequirementIdsAgree | src/mncs_harness/atlas_binding.py:488-497 | under a collision-free digest, equal ids mean equal material up to order |
| RequirementIdentity.SameNamedLegsKeepOrder | src/mncs_harness/atlas_binding.py:258-288 | swapping two legs is visible exactly when they share a name and differ |
| RequirementLoad.FromDict | src/mncs_harness/atlas_binding.py:395-512 | the loader's loops compute the load that LoadLaws.LoadExactly reads |
| LoadLaws.LoadExactly | src/mncs_harness/atlas_binding.py:395-512 | the loader returns a requirement iff the envelope reads as it: header fields as they stand or defaulted, every decision intact, signed by a trusted issuer and of the one session, every leg well formed, and as verified exactly the attested pairs |
| LoadLaws.DecisionReadsExactly | src/mncs_harness/atlas_binding.py:304-351 | a decision envelope reads as a decision iff it is intact and signed by a trusted issuer, its status being the string "granted", "conditional" or "denied", and capability, missing items, session, target and digest the envelope's own |
| LoadLaws.LegReadsExactly | src/mncs_harness/atlas_binding.py:447-458 | what a leg says in the envelope, field by field |
| LoadLaws.AttestsExactly | src/mncs_harness/atlas_binding.py:184-231 | a value attests an item iff it names the item and the session, names no subject, was issued within the window up to its 64-bit wrap, and is signed by a trusted issuer |
| RequirementLoad.CheckSession | src/mncs_harness/atlas_binding.py:437-446 | passes exactly when every decision belongs to the envelope's session |
| RequirementLoad.ParseEachLeg | src/mncs_harness/atlas_binding.py:447-484 | fails exactly on a malformed leg; otherwise the verified pairs are exactly the authenticated ones |
| RequirementLoad.VerifyEvidence | src/mncs_harness/atlas_binding.py:459-475 | verifies exactly the values of one leg that pass the attestation check |
| LoadLaws.VerifiedPairsMeaning | src/mncs_harness/atlas_binding.py:459-475 | a pair is verified iff a leg of that name carries a value that passes the attestation check |
| LoadLaws.EnvelopesGrantExactly | src/mncs_harness/atlas_binding.py:395-597 | from the envelope to the verdict: a loaded leg is GRANTED iff no other artifact was observed and, for each need, some envelope decides it, none says "denied" of it, one names the leg's target if any names one, and each item a "conditional" one misses is attested or is the execution target |
| LoadLaws.PlainGrantsGrant | src/mncs_harness/atlas_binding.py:395-597 | envelopes that all say "granted" and name no target grant every leg whose needs they decide |
| LoadLaws.GrantedIsAuthenticated | src/mncs_harness/atlas_binding.py:304-351 | behind every need of a GRANTED leg stands a carried envelope that decides it, says "granted" or "conditional", is of this very session, and has a matching digest and a trusted issuer's signature |
| LoadLaws.GrantedIsEvidenced | src/mncs_harness/atlas_binding.py:184-231 | every item a "conditional" envelope on a need of a GRANTED leg misses is attested for that leg, or is "execution.target" where an envelope names the leg's target |
| LoadTimes.LoadIgnoresClock | src/mncs_harness/atlas_binding.py:395-512 | the load time decides the verified evidence and nothing else |
| LoadTimes.AttestationTimesConvex | src/mncs_harness/atlas_binding.py:184-231 | one value is admitted at the times of one interval, up to the time its 64-bit window wraps |
| LoadTimes.GrantedTimesExactly | src/mncs_harness/atlas_binding.py:434-484 | with distinct leg names, the 64-bit load times at which a leg is GRANTED form an interval under every list of decisions iff every genuine attestation it carries was issued since the epoch, or it needs nothing or nothing can grant it |
| LoadTimes.SharedNameBreaksTheInterval | src/mncs_harness/atlas_binding.py:455-475 | two legs of one name, attested more than a window apart, are GRANTED at both issue times and nowhere between the windows |
| LoadTimes.WrappedWindowBreaksTheInterval | mncs/harness_freshness.mncs:28-35 | a leg resting on an attestation issued before the epoch is GRANTED at its issue time, not once the window has passed, and again 2^63 instants on |
| AtlasBinding.FoldCapability | src/mncs_harness/atlas_binding.py:690-720 | the loop over duplicates yields the fold of the grants and the strictly sorted union of missing items |
| AtlasBinding.CollectMissing | src/mncs_harness/atlas_binding.py:700-712 | appending new items and sorting keeps the list strictly sorted and loses nothing |
| AtlasBinding.Folds | src/mncs_harness/atlas_binding.py:514-522 | exactly the decided capabilities are folded, each over its own decisions |
| AtlasBinding.GroupByCapability | src/mncs_harness/atlas_binding.py:516-518 | grouping keeps each capability's decisions in carried order |
| AtlasBinding.OutstandingMeaning | src/mncs_harness/atlas_binding.py:690-720 | the outstanding list is strictly sorted and holds exactly the items some conditional decision misses |
| AtlasBinding.FoldVerdictMeaning | src/mncs_harness/atlas_binding.py:681-720 | the fold refuses exactly when some decision denies; a grant leaves no conditional decision waiting |
| AtlasBinding.NeedVerdictExactly | src/mncs_harness/atlas_binding.py:556-596 | a need is refused iff undecided, misplaced or denied, and granted iff moreover fully evidenced |
| AtlasBinding.Accept | src/mncs_harness/atlas_binding.py:533-597 | the loop over needs computes the lattice join of the per-need verdicts |
| AtlasBinding.AcceptExactly | src/mncs_harness/atlas_binding.py:533-597 | GRANTED iff the leg exists, no artifact other than the bound one was observed, and every need is decided, placeable, undenied and evidenced; REFUSED iff the leg is missing, another artifact was observed, or some need is not placeable or is denied |
| AtlasBinding.ObservedArtifactDecides | src/mncs_harness/atlas_binding.py:549-553 | an observed artifact other than the bound one refuses every leg, and any other observation changes no verdict |
| AtlasBinding.FindLegIsFirst | src/mncs_harness/atlas_binding.py:546-548 | a leg is looked up as the first one that carries the name |
| AtlasLaws.FindLegForgetsOrder | src/mncs_harness/atlas_binding.py:546 | distinctly named legs are found alike in any order |
| AtlasLaws.AcceptForgetsOrder | src/mncs_harness/atlas_binding.py:533-597 | the order and repetition of decisions and needs never reach a verdict |
| AtlasLaws.FoldForgetsDecisionOrder | src/mncs_harness/atlas_binding.py:514-522 | duplicates fold to the same verdict and outstanding list in any order |
| AtlasLaws.MoreEvidenceNeverLowers | src/mncs_harness/atlas_binding.py:578-591 | authenticating more evidence never lowers a verdict |
| AtlasLaws.ExtraDecisionNeverRaises | src/mncs_harness/atlas_binding.py:533-597 | one more decision on a decided capability never raises a verdict unless it authorizes the leg's own target |
| AtlasLaws.FirstDecisionRaises | src/mncs_harness/atlas_binding.py:557-561 | a first decision can raise REFUSED to GRANTED |
| AtlasLaws.FurtherTargetRaises | src/mncs_harness/atlas_binding.py:563-573 | a further authorization of the leg's target can raise REFUSED to GRANTED |
| AtlasLaws.ConfirmExactly | src/mncs_harness/atlas_binding.py:599-678 | confirmation only demotes; of an accepted leg it grants iff the leg's non-empty target is reported on a fresh "fabric-inventory" or "operator-asserted" channel, and refuses iff another target is reported on the "fabric-legacy" channel or on fresh proof, or elsewhere no worker is or the channel is neither of the two |
| FabricTargetTools.Execute | src/mncs_harness/fabric_target_tools.py:40-127 | Fabric is called exactly when gate, policy, approval and support agree; success is reported exactly when it is due by FabricTargetTools.ReportsExactly |
| FabricTargetTools.ReportsExactly | src/mncs_harness/fabric_target_tools.py:40-127 | a success is reported iff the request is covered, allowed, approved, supported and prepared, Fabric executed it or found it done with outcome "PASS", and the evidence gathered afterwards does not contradict the leg's target |
| FabricTargetTools.GatePassExactly | src/mncs_harness/fabric_target_tools.py:129-236 | the gate passes iff a carried leg covers dispatch with every need met, the worker is authorized, the session is the expected one, and Fabric holds fresh operator proof |
| FabricTargetTools.GatePassMeaning | src/mncs_harness/fabric_target_tools.py:129-236 | a passed gate means an undenied leg with a non-empty authorized target, an authorized requested worker, and the expected session |
| FabricTargetTools.LapsedProof | src/mncs_harness/fabric_target_tools.py:337-405 | no success rests on a channel that is not the operator's, whatever worker it names; a matching worker keeps its success though the proof of it went stale |
| FabricTargetTools.ConfirmedSuccessRanOnTarget | src/mncs_harness/fabric_target_tools.py:337-372 | a success confirmed on fresh operator proof ran on the authorized leg target |
| FabricTargetTools.UnconfirmedSuccessExactly | src/mncs_harness/fabric_target_tools.py:337-405 | a raw success without the target named is still reported exactly when operator proof went stale with a worker reported, or became legacy with none |
| FabricTargetTools.OtherAuthorizedWorkerNeverConfirms | src/mncs_harness/fabric_target_tools.py:337-372 | asking for another authorized worker is refused at confirmation, exactly then |
| Tools.ToolRegistry.constructor | src/mncs_harness/tools.py:48-67 | a new registry is unbound, with no modified paths |
| Tools.ToolRegistry.BindAtlasRequirement | src/mncs_harness/tools.py:69-109 | stores the acceptance of the leg after checking the operator's expected session, replacing the previous one |
| Tools.BindExactly | src/mncs_harness/tools.py:69-109 | a binding is stored with the leg's verdict, unless the operator expects another participant or scope; then it is stored as refused |
| Tools.ToolRegistry.AtlasGate | src/mncs_harness/tools.py:114-149 | covered exactly when the bound acceptance is GRANTED and its leg lists every declared need |
| Tools.ToolRegistry.Execute | src/mncs_harness/tools.py:263-293 | one call changes the state exactly as the gated tool allows, also when its effect does not complete, and succeeds exactly when nothing stood in its way and it completed; which names are gated on what is Tools.ConsequentialExactly |
| Tools.ToolRegistry.WriteFile | src/mncs_harness/tools.py:417-441 | writes exactly when policy and approval allow it, and remembers the path and succeeds exactly when the write completes |
| Tools.ToolRegistry.RunCommand | src/mncs_harness/tools.py:443-472 | runs exactly when policy and approval allow it, and succeeds exactly when the command also ends in time with code 0 |
| Tools.ToolRegistry.CommonsCall | src/mncs_harness/tools.py:301-344 | reaches the exchange exactly when a write is covered, publication is on and approval is given, and succeeds exactly when Commons also accepts it; which names write is Tools.ConsequentialExactly |
| Tools.StepKeepsSafety | src/mncs_harness/tools.py:69-149 | every bind or execute step keeps the safety invariant |
| Tools.EveryRunIsSafe | src/mncs_harness/tools.py:263-344 | in every run each write, command and publication was covered by the binding in force, completed or not, and modified paths list the files written to completion once each |
| Tools.ConsequentialExactly | src/mncs_harness/tools.py:263-344 | after every run each of "write_file", "run_command" and the seven Commons write tools, named one by one, has its effect iff the latest binding is GRANTED with "repo.edit", "worker.dispatch" or "evidence.attest" on its leg, approval is given and, by tool, policy allows it or a ready Commons offers it with publication on; it succeeds iff that effect also completes |
| Tools.ReadingExactly | src/mncs_harness/tools.py:155-293 | every other tool has no effect and succeeds iff it is one of the named controller tools or offered by a ready Commons and its handler does |
| Tools.RefusedRebindRevokes | src/mncs_harness/tools.py:69-109 | after a binding that was not granted no effect follows until another binding is granted |
| Tools.EffectsRestOnAtlas | src/mncs_harness/tools.py:114-149 | behind every effect of every run stands the binding last made, of an artifact no other was observed for, whose leg lists the effect's capability and had each of its needs decided, placeable, undenied and evidenced |
| Residency.Fleet.Warm | src/mncs_harness/fabric_inventory_session.py:132-193 | loads the pair and reports whether it was there; a failed warm changes nothing |
| Residency.Fleet.Release | src/mncs_harness/fabric_inventory_session.py:591-761 | unloads the pair and reports whether it was there; a failed release changes nothing |
| Residency.ResidencyManager.PrepareExperiment | src/mncs_harness/residency.py:268-483 | the validated, refreshed and checked requests end in the specified records and loads |
| Residency.ResidencyManager.WarmRequested | src/mncs_harness/residency.py:339-483 | the loop warms exactly the admitted pairs that do not fail |
| Residency.ResidencyManager.ReleaseExperiment | src/mncs_harness/residency.py:485-540 | releases exactly the managed leases and reports for each whether it was left, released, already gone or failed |
| Residency.AdmittedExactly | src/mncs_harness/residency.py:84-147 | a pair may be warmed iff the last row of its worker exists, is AVAILABLE, is not observed stale and is CURRENT, reports the model from "ollama" with total, free and size known and positive, the size within budget and free memory, and no other model loaded unless the model is or the conflict policy is off |
| Residency.RefusalExactly | src/mncs_harness/residency.py:339-445 | a pair is refused with a code iff that is the first of these conditions to fail |
| Residency.PreparedExactly | src/mncs_harness/residency.py:268-483 | a pair passes iff it was requested, may be warmed and its warm does not fail, and exactly then the call loads it |
| Residency.RefusedRecordExactly | src/mncs_harness/residency.py:339-483 | a record that does not pass says that the warm of a pair that may be warmed failed, or else the first condition its pair fails |
| Residency.WarmingExactly | src/mncs_harness/residency.py:268-315 | a call raises iff its id or a name in it is malformed, and reaches warming iff moreover the status was read and no worker is asked for more distinct models than may be pinned |
| Residency.RecordsExactly | src/mncs_harness/residency.py:321-483 | records come in ascending order of worker and model, show the size reported, say whether the pair was loaded before, and are managed iff the call brought the pair in or reuses one the experiment held |
| Residency.PreparedRecords | src/mncs_harness/residency.py:339-483 | of a call that reaches warming, each record passes iff its pair was admitted and warmed, and is reused iff it was loaded |
| Residency.OneRecordPerPair | src/mncs_harness/residency.py:288-483 | every valid call without pin overflow returns exactly one record per distinct requested pair, also when the refresh fails |
| Residency.PreparedManaged | src/mncs_harness/residency.py:325-483 | managed exactly where the pair was absent before or already managed |
| Residency.RoundsInvariant | src/mncs_harness/residency.py:268-483 | over any number of rounds nothing initial is lost or managed, and each pair brought in is managed iff no round dropped it |
| Residency.ReleaseRestoresPair | src/mncs_harness/residency.py:268-540 | pair by pair, releasing the latest results keeps every initial pair and takes any other away iff no round dropped it, whatever became of the rest |
| Residency.ReleaseRestoresExactly | src/mncs_harness/residency.py:268-540 | so every worker has its initial models back iff no round dropped a managed pair |
| Residency.ReleaseExactly | src/mncs_harness/residency.py:485-540 | lease by lease: unmanaged ones are left, and of the managed the release fails where the provider raises and else finds the pair unless it was not loaded or an earlier lease gave it back |
| Residency.SinglePreparationIsUndone | src/mncs_harness/residency.py:268-540 | one preparation is always undone by its release, whichever assignments failed |
| Residency.ReleaseNeverTakesMoreAndRepeats | src/mncs_harness/residency.py:485-540 | even failing releases never take an initial model, and repeating a release changes nothing more |
| Residency.SecondReleaseReportsNothing | src/mncs_harness/residency.py:485-540 | a second release of the same leases reports none of them as released |
| Residency.OverflowWarmsNothing | src/mncs_harness/residency.py:288-315 | asking a worker for more distinct models than may be pinned warms nothing, and the records are exactly those of the overflowing workers in ascending order, each with all its requested models in order |
| Residency.PassingPairFits | src/mncs_harness/residency.py:84-147 | a passing pair fits budget and available memory and, under the conflict policy, was loaded or alone |
| Residency.WorkerStaysWithinPolicy | src/mncs_harness/residency.py:288-483 | a worker holds at most max_pinned passing leases, their sizes within max_pinned budgets |
| Reconcile.Plan | src/mncs_harness/residency.py:149-266 | the loop over sorted rows yields the specified plan |
| Reconcile.PlanIsPerWorker | src/mncs_harness/residency.py:149-266 | distinct ids among the remote rows give one assignment per worker |
| Reconcile.PlanWorkerExactly | src/mncs_harness/residency.py:149-266 | what is planned for a worker: not watched, unavailable, stale, without a model meant for it (the explicit one, or the first role whose candidate is installed), unmeasured, too large, held already, or to be warmed |
| Reconcile.PlanExactly | src/mncs_harness/residency.py:149-266 | the plan speaks of exactly the remote rows with an id, and of each as it reads |
| Reconcile.PlanInOrder | src/mncs_harness/residency.py:149-160 | in ascending order of worker id |
| Reconcile.ReconcileWarmsExactly | src/mncs_harness/residency.py:542-612 | one reconciliation loads exactly the pairs that are to be warmed: on a watched remote worker, available and current, the model meant for it, installed, fitting and not loaded |
| Reconcile.ReconcileReportsExactly | src/mncs_harness/residency.py:542-612 | it returns each targeted assignment in plan order, with its own outcome where it was to be warmed, or that the forced worker is unknown |
| Reconcile.ReconcileRemembersExactly | src/mncs_harness/residency.py:592-607 | and remembers each attempt under its worker and everything else as before |
| Reconcile.RunTasks | src/mncs_harness/residency.py:566-607 | running the warm tasks in a completion order is the specified sweep |
| Reconcile.Reconciler.Run | src/mncs_harness/residency.py:542-612 | one reconciliation leaves the specified fleet, records and remembered results |
| Reconcile.Reconciler.Collect | src/mncs_harness/residency.py:592-607 | results are filed by worker in pending order |
| Reconcile.Reconciler.ReportPlan | src/mncs_harness/residency.py:608-612 | every targeted assignment is reported, warmed or as planned |
| Reconcile.SweepIsIndependent | src/mncs_harness/residency.py:564-590 | with one task per worker each task sees its worker as before the sweep |
| Reconcile.InterleavingsAgree | src/mncs_harness/residency.py:564-600 | every completion order reaches the same fleet and outcomes |
| Reconcile.ReconcileForgetsCompletionOrder | src/mncs_harness/residency.py:542-612 | every completion order returns the same records and remembers the same results |
| Reconcile.SweepTouchesOnlyReady | src/mncs_harness/residency.py:542-590 | only planned READY_TO_WARM pairs are loaded, only on the forced worker if any, at most one per worker |
| Reconcile.SecondPassWarmsNothingHeld | src/mncs_harness/residency.py:542-612 | a second pass over a refreshed status warms nothing the first already warmed |
| ModelSelection.DedupeModels | src/mncs_harness/model_selection.py:41-47 | the first item of each non-empty name, in name order |
| ModelSelection.DedupedMeaning | src/mncs_harness/model_selection.py:41-47 | deduplication keeps every name and looks up as the listing does |
| ModelSelection.SelectInstalledModel | src/mncs_harness/model_selection.py:187-287 | the loops and the ranking compute the specified choice |
| ModelSelection.BestIsLeast | src/mncs_harness/model_selection.py:233-267 | the ranked choice is admitted and least under the key, absent iff nothing is admitted |
| ModelSelection.RolesExactly | src/mncs_harness/model_selection.py:187-215 | what each role, by name, needs and prefers and how it treats the unknown, and the default limits |
| ModelSelection.EligibleExactly | src/mncs_harness/model_selection.py:74-171 | which models may serve a role, on provider claims, the latest observation of each capability and the policy |
| ModelSelection.RankExactly | src/mncs_harness/model_selection.py:174-261 | one model outranks another by observed tools, observed code edits, claimed tools, residency, the size rule of the role and then the name, in this order |
| ModelSelection.ChosenExactly | src/mncs_harness/model_selection.py:187-287 | a configured model wins, as first listed, wherever it is installed; otherwise the choice is a candidate no other outranks, absent iff there is no candidate |
| ModelSelection.ChosenShowsTools | src/mncs_harness/model_selection.py:223-247 | when tools are needed and any candidate shows a signal, the choice shows one |
| ModelSelection.ChosenForgetsOrder | src/mncs_harness/model_selection.py:187-287 | listing order and repetition never change a selection among agreeing listings |
| Placement.PlaceModel | src/mncs_harness/fabric_inventory_session.py:1106-1161 | the loop over candidates finds the candidate that holds the least spot offering the model |
| Placement.ResolveModelFromStatus | src/mncs_harness/fabric_inventory_session.py:897-1181 | the branches compute the selection that ResolutionLaws.ResolvedExactly reads, and the admission of its pins |
| ResolutionLaws.ResolvedExactly | src/mncs_harness/fabric_inventory_session.py:897-1181 | every resolution, over everything it depends on: which pin is tried on which rows, what it selects with which size, freshness and flags, when it gives way to automatic placement, and which of the unavailable codes is answered otherwise |
| ResolutionLaws.WinnerExactly | src/mncs_harness/fabric_inventory_session.py:1106-1130 | a model is placed on a row that reports it and that no other precedes: loaded first where that is preferred, then resident, then the smaller id; and nowhere iff no row reports it |
| ResolutionLaws.WorkerPinExactly | src/mncs_harness/fabric_inventory_session.py:995-1055 | a worker pin takes the first row of the id, as fresh as its mode demands, and its named model or the one the role would choose among those it reports |
| ResolutionLaws.AutoExactly | src/mncs_harness/fabric_inventory_session.py:1106-1161 | an automatic placement takes the configured model wherever a row offers it, else the choice made from all that is listed where a row offers that, and is absent otherwise |
| ResolutionLaws.DiagnosisExactly | src/mncs_harness/fabric_inventory_session.py:864-878 | which of the unavailable codes is answered: Fabric itself, no remote worker, none available, some stale, all current, or unknown |
| PlacementLaws.PlaceMeaning | src/mncs_harness/fabric_inventory_session.py:1106-1161 | a placement names a candidate that reports the model, and fails only when none does |
| PlacementLaws.HonouredPinIsExact | src/mncs_harness/fabric_inventory_session.py:995-1092 | an honoured pin resolves to its own worker and model; a worker pin on a row as fresh as its mode demands, a model pin on a worker with some CURRENT row and some live row that reports the model |
| PlacementLaws.ModelPinsFreshExactly | src/mncs_harness/fabric_inventory_session.py:1056-1086 | whatever is resident, every honoured model pin rests on an AVAILABLE and CURRENT row of its worker that reports the model, iff every row the ranking can pick has such a row under its id |
| PlacementLaws.RepeatedIdPinsStale | src/mncs_harness/fabric_inventory_session.py:1056-1086 | with a repeated row id a model pin is honoured on a STALE report alone |
| PlacementLaws.PinsNeverDrift | mncs/harness_pins.mncs:137-157 | without fallback a pin yields its own worker and model or an unavailable record, and PIN_FAILED_CLOSED is never answered |
| PlacementLaws.AvailableSelectionIsSound | src/mncs_harness/fabric_inventory_session.py:833-1181 | every available selection names a live worker of the status whose inventory reports the model, for an honoured bare worker pin up to surrounding whitespace |
| PlacementLaws.VerbatimExactly | src/mncs_harness/fabric_inventory_session.py:897-1181 | every available selection, for every request and configured model, is reported verbatim iff each name a pinnable row reports is also reported stripped |
| PlacementLaws.PaddedNameIsNotReported | src/mncs_harness/fabric_inventory_session.py:1036-1052 | a padded name makes a worker pin select a name that is not reported |
| PlacementLaws.AutoPlaceMeaning | src/mncs_harness/fabric_inventory_session.py:1106-1161 | the configured model is preferred wherever reported; else the fallback choice is placed; failure means neither exists |
| PlacementLaws.ConfiguredPlacementForgetsOrder | src/mncs_harness/fabric_inventory_session.py:1106-1130 | where the configured model is reported, permuting workers, or models within inventories that report each in one state, keeps its placement though it be warm here and cold there |
| PlacementLaws.AutoPlaceForgetsOrder | src/mncs_harness/fabric_inventory_session.py:1106-1161 | permuting workers or the models within inventories keeps worker and model; the fallback choice alone needs same-named models to agree |
| PlacementLaws.ResolutionForgetsOrder | src/mncs_harness/fabric_inventory_session.py:897-1181 | permuting status rows, or the models within the inventories observed or cached, keeps availability, worker and model of an automatic resolution to the configured model, and of any where same-named models agree |
| PlacementLaws.DisagreeingListingsMatter | src/mncs_harness/model_selection.py:41-47 | with disagreeing listings the order decides the choice |
| InventorySession.InventoryCache.constructor | src/mncs_harness/fabric_inventory_session.py:349-361 | a new session publishes nothing and has no inventory and no error |
| InventorySession.InventoryCache.Initialize | src/mncs_harness/fabric_inventory_session.py:369-384 | connecting with a client decides the publication mode from controller mode and client, and then refreshes exactly where that is asked for and supported; without a client nothing changes |
| InventorySession.InventoryCache.RefreshModelInventories | src/mncs_harness/fabric_inventory_session.py:763-823 | the refresh loop and the two prunings reach the specified tables |
| InventorySession.InventoryCache.RecordScan | src/mncs_harness/fabric_inventory_session.py:785-815 | a failed scan forgets the inventory and records the error; a good one clears the error |
| InventorySession.RefreshedExactly | src/mncs_harness/fabric_inventory_session.py:763-823 | every refresh, name by name: an unsupported one changes nothing, an unreadable list is recorded under "*", and a read one leaves of each worker the inventory or the error of its last scan, and of a worker no longer listed nothing |
| InventorySession.ConnectedExactly | src/mncs_harness/fabric_inventory_session.py:369-384 | observations are published iff the connection is embedded or executes services and its client ingests them, and a refresh follows exactly where asked for and supported |
| InventorySession.EveryRefreshKeepsTables | src/mncs_harness/fabric_inventory_session.py:763-823 | over any connections and refreshes no worker is in both tables, and after a step that lists the workers both stay within the observed ids |
| InventorySession.TablesCollideExactly | src/mncs_harness/fabric_inventory_session.py:773-777 | a name gets into both tables exactly when the list fails while a worker called `*` has an inventory |
| InventorySession.StarCollides | src/mncs_harness/fabric_inventory_session.py:773-777 | such a run exists |
| InventorySession.RoutingSeesLastScan | src/mncs_harness/fabric_inventory_session.py:785-861 | routing sees nothing of a worker whose fresh scan failed, and exactly the scan otherwise |
| InventorySession.ModelCapabilityEntries | src/mncs_harness/fabric_inventory_session.py:247-309 | the loop emits the runtime entry and one entry per named model, in order |
| InventorySession.EntryExactly | src/mncs_harness/fabric_inventory_session.py:247-309 | the entry published for a model stands under its stripped name and carries exactly the facts it states |
| InventorySession.RuntimeExactly | src/mncs_harness/fabric_inventory_session.py:247-262 | the runtime entry names the provider version iff every model that states one states that one |
| InventorySession.ModelRoundTrip | src/mncs_harness/fabric_inventory_session.py:312-343 | an encoded model decodes to itself, every well-formed field unchanged |
| InventorySession.RoundTrip | src/mncs_harness/fabric_inventory_session.py:247-343 | a published inventory reads back with every named model in order |
| InventorySession.SecondTripIsIdentity | src/mncs_harness/fabric_inventory_session.py:247-343 | a second trip changes nothing |
| TomlProfile.FindSection | src/mncs_harness/fabric_profile.py:51-63 | finds the header to edit at and the end of its table, or that there is none |
| TomlProfile.Overwrite | src/mncs_harness/fabric_profile.py:73-81 | exactly the lines of the table that set a given key change, keeping indentation |
| TomlProfile.MissingKeys | src/mncs_harness/fabric_profile.py:82 | exactly the given keys the table does not set, in the given order |
| TomlProfile.UpsertTomlSection | src/mncs_harness/fabric_profile.py:49-85 | on every file the in-place edit is the specified edit |
| TomlLaws.UpsertLines | src/mncs_harness/fabric_profile.py:49-85 | an upsert of a present section, line by line: everything outside its table stays, each line of the table becomes what it should, and the missing keys follow the table's last line |
| TomlLaws.UpsertAppends | src/mncs_harness/fabric_profile.py:56-60 | an upsert of an absent section appends a blank line unless the file ends in one, the header and every given key |
| TomlLaws.UpsertKeepsTheRest | src/mncs_harness/fabric_profile.py:49-85 | keys not given and other plain tables keep their reading whatever the table contains |
| TomlLaws.ReadBackExactly | src/mncs_harness/fabric_profile.py:53-63 | a given key reads back iff no array-of-tables header stands in the body or the key is set before it |
| TomlLaws.ArrayKeepsKeyExactly | src/mncs_harness/fabric_profile.py:53-83 | a given key of an array of tables keeps its reading iff it is set before the section, already carries the value, or is neither set inside nor reached by the additions |
| TomlLaws.UpsertReadsExactly | src/mncs_harness/fabric_profile.py:49-85 | for every key of every table the reading after an upsert is the intended one iff no array of tables stands in between, by the three exact conditions |
| TomlLaws.ArrayLosesKey | src/mncs_harness/fabric_profile.py:53-81 | an upsert of a key overwrites that key of an array of tables below the section |
| TomlLaws.UpsertIdempotent | src/mncs_harness/fabric_profile.py:49-85 | the same upsert twice is the same upsert once, line for line |
| TomlLaws.UpsertsCommute | src/mncs_harness/fabric_profile.py:49-85 | upserts of two present sections commute, line for line |
| TomlProfile.RemoveTomlKeys | src/mncs_harness/fabric_controller_light.py:19-36 | the loop is the specified removal |
| TomlLaws.RemovalLines | src/mncs_harness/fabric_controller_light.py:19-36 | removal takes exactly the key lines of the named keys that stand below the section's header |
| TomlLaws.RemovalStripsExactly | src/mncs_harness/fabric_controller_light.py:22-36 | removal strips the named keys of the table, for all key sets, iff it tracks the table at every key line past headers of both kinds |
| TomlLaws.RemovalReads | src/mncs_harness/fabric_controller_light.py:19-36 | without commented headers of either kind exactly the named keys of the section are gone |
| TomlLaws.CommentedHeaderLosesKey | src/mncs_harness/fabric_controller_light.py:26-30 | behind a commented header a neighbour's key is taken |
| TomlLaws.CommentedArrayLosesKey | src/mncs_harness/fabric_controller_light.py:26-30 | behind a commented array-of-tables header its key is taken |
| TomlLaws.CommentedHeaderKeepsKey | src/mncs_harness/fabric_controller_light.py:26-30 | under a commented header the section's own key stays |
| ControllerLight.ApplyControllerLight | src/mncs_harness/fabric_controller_light.py:39-80 | the step-by-step rewriting is the specified chain of edits on every file |
| ControllerLight.ProfileReads | src/mncs_harness/fabric_controller_light.py:39-80 | the profiled file reads the profile's settings, loses exactly the dropped key of each role and keeps every other setting, arrays of tables included |
| ControllerLight.ProfileSettles | src/mncs_harness/fabric_controller_light.py:39-80 | applying the profile again changes no setting |
| Router.PlanBounded | src/mncs_harness/router.py:210-276 | a plan names 1 to max(1, max_attempts) configured roles, one under a forced role or exact pin, and fails exactly on an unknown role or no models |
| Router.PlanExactly | src/mncs_harness/router.py:113-276 | the roles a plan walks through: a forced role alone, the first of the bounded ladder under an exact pin, all of it otherwise, led by the lane's role where automatic routing has one |
| Router.EscalationClimbs | src/mncs_harness/router.py:113-164 | escalation repeats no role when the preferred one is configured |
| Agent.Converse | src/mncs_harness/agent.py:462-539 | the tool loop is the specified conversation |
| Agent.TalkMeaning | src/mncs_harness/agent.py:462-539 | a conversation ends at the first step asking for no tool, in its answer or error, else in the exceeded error, unexpectedly only with no step allowed; every round before ran in order |
| Agent.TalkExactly | src/mncs_harness/agent.py:462-539 | how a conversation ends: at the first step that asks for no tool, in its answer or the provider's error, or cut off once all max_tool_steps + 1 steps ask, with the calls made and the tools run up to there |
| Agent.TalkBounded | src/mncs_harness/agent.py:462-512 | at most max_tool_steps + 1 provider calls |
| Agent.MergePaths | src/mncs_harness/agent.py:541-543 | new paths are appended once each |
| Agent.MergeMeaning | src/mncs_harness/agent.py:541-543 | the merged list extends the known one, is duplicate free and holds exactly both |
| Agent.Verdict | src/mncs_harness/verifiers.py:98-106 | the verifier passes exactly without failures |
| Agent.RunAttempt | src/mncs_harness/agent.py:397-575 | one attempt is the specified conversation, verified and folded |
| Agent.FailuresExactly | src/mncs_harness/agent.py:544-561 | what is held against an attempt, each finding once: the verifier's failures, a non-empty error, each failing tool with its output where these count, and a blank answer without an error |
| Agent.PassedExactly | src/mncs_harness/agent.py:544-561 | when an attempt passes: clean verification, no non-empty error, no failing tool where that counts, and content |
| Agent.Run | src/mncs_harness/agent.py:577-655 | the escalation loop makes the specified attempts |
| Agent.AttemptsPrefix | src/mncs_harness/agent.py:613-655 | the attempts walk a prefix of the roles, each one before the last failed, stopping short only on a pass or with escalation off |
| Agent.AttemptsRead | src/mncs_harness/agent.py:577-655 | every attempt of a run is the conversation and verification its number says, and passed iff the verifier found nothing, no non-empty error was raised, no tool failed where that counts, and an answer without an error is not blank |
| Agent.SuccessfulExactly | src/mncs_harness/models.py:534-541 | a run succeeds iff some attempt passed |
| Agent.AttemptsCheck | src/mncs_harness/agent.py:541-544 | each attempt is verified against exactly the paths modified so far, each once |
| Agent.AttemptsCalls | src/mncs_harness/agent.py:462-655 | provider calls stay within roles times steps |
| Agent.RunBounded | src/mncs_harness/agent.py:577-655 | planned and run: 1 to max(1, max_attempts) attempts and at most that many times max_tool_steps + 1 calls |
| ExperimentReadiness.EvaluateWorker | src/mncs_harness/experiment_readiness.py:325-427 | the branches collect the specified blockers and state |
| ExperimentReadiness.WorkerReadyIffUnblocked | src/mncs_harness/experiment_readiness.py:396-410 | READY iff no blocker iff eligible |
| ExperimentReadiness.WorkerReadyExactly | src/mncs_harness/experiment_readiness.py:325-427 | READY iff available, fresh where demanded, and vouched for by Fabric's decision or its unblocked certified ledger; no other evidence suffices |
| ReadinessLaws.WorkerExactly | src/mncs_harness/experiment_readiness.py:325-427 | a worker is BLOCKED iff not AVAILABLE, READY and eligible iff fit, with availability, freshness and vouching written out, and never UNKNOWN |
| ReadinessLaws.BlockersExactly | src/mncs_harness/experiment_readiness.py:325-427 | its blockers are exactly the reasons held against it |
| ExperimentReadiness.EvaluateModel | src/mncs_harness/experiment_readiness.py:451-493 | the branches collect the specified blockers |
| ExperimentReadiness.ModelEligibleExactly | src/mncs_harness/experiment_readiness.py:451-493 | an eligible model is operational, and is exactly a named, unfailed, permitted, rightly cast model on an eligible worker |
| ReadinessLaws.ModelExactly | src/mncs_harness/experiment_readiness.py:451-493 | a model's blockers are exactly the reasons held against it, it is eligible iff there is none, and operational iff named, on a worker Fabric would use, not failed and not denied |
| ExperimentReadiness.EvaluateFleet | src/mncs_harness/experiment_readiness.py:579-653 | the loops reach the specified evaluations, model records and layer states |
| ReadinessLaws.FleetExactly | src/mncs_harness/experiment_readiness.py:579-610 | the fleet and workers layers: UNKNOWN with no worker, BLOCKED with none available, DEGRADED with none fit, READY otherwise |
| ReadinessLaws.ModelsExactly | src/mncs_harness/experiment_readiness.py:611-653 | the models layer: READY with a sound model on a fit worker, DEGRADED with one that merely works, BLOCKED where a worker is available or any model was listed, UNKNOWN otherwise |
| ExperimentReadiness.EligibleModelForcesLayers | src/mncs_harness/experiment_readiness.py:579-653 | an eligible model is operational and forces fleet, workers and models READY |
| ExperimentReadiness.Overall | src/mncs_harness/experiment_readiness.py:153-160 | fails exactly on a required status outside the lattice, else folds the required layers |
| ExperimentReadiness.StatusExactly | src/mncs_harness/experiment_readiness.py:153-155 | a required layer counts with the status listed last under its name, and as UNKNOWN where none is |
| ExperimentReadiness.EvaluateLayers | src/mncs_harness/experiment_readiness.py:797-848 | whatever the other layers and the provenance say, the evaluation fails exactly on a required status outside the lattice and else is the fold of the required layers, READY demoted on incomplete provenance |
| ExperimentReadiness.DemotionOnlyDemotes | src/mncs_harness/experiment_readiness.py:845-848 | the provenance step never improves a state and keeps READY exactly with complete provenance |
| ExperimentReadiness.ReadyExactly | src/mncs_harness/experiment_readiness.py:797-848 | a profile is READY iff every required layer is and provenance is complete where demanded |
| ReadinessLaws.ProfileReadyExactly | src/mncs_harness/experiment_readiness.py:579-848 | READY in a profile, over everything the evaluation depends on: provenance complete where demanded, the layers this profile requires READY, a fit worker, and a sound model with a fit worker |
| ReadinessLaws.ProfileExactly | src/mncs_harness/experiment_readiness.py:797-848 | and otherwise the worst of the states this profile requires, one outside the lattice failing the evaluation, READY becoming DEGRADED on incomplete provenance |
| ExperimentReadiness.ReadyHasEvidence | src/mncs_harness/experiment_readiness.py:579-848 | READY in any profile means an eligible worker, an eligible model and READY fleet and workers layers |

## Left out

- Reason and binding texts, progress and metrics: free-form strings that decide nothing.
- SHA-256, Ed25519, canonical JSON bytes and Python's `str` of non-strings: parameters of the load; floats in JSON are not modelled.
- ControllerLight.ProfileReads: asks that no array of tables stands inside an edited table and no commented header at the borders of a role's table; TomlLaws.UpsertReadsExactly and TomlLaws.RemovalStripsExactly say what each edit does otherwise.
- TOML lines are taken as the editor's patterns classify them: quoted and dotted keys, multi-line values and comments ending in a bracket are not modelled.
- Residency.Fleet.Warm: assumes that a failing operation changes nothing; timeouts of warm tasks are not modelled.
- Residency.PassingPairFits: takes the memory fraction as a rational and the freshness of an observation as given; clock reads and timestamp parsing are parameters.
- Reconcile.Reconciler.Run: assumes the pool finishes every task; the tasks are atomic in completion order.
- FabricTargetTools.UnconfirmedSuccessExactly: lets Fabric's provenance module disappear between gate and confirmation, which a running process rules out once the gate has loaded it.
- Placement.ResolveModelFromStatus: a sorted list whose head is taken is modelled as a running least; the effective think and context settings of the selection are not modelled.
- Tools.ToolRegistry.Execute: reading tools have no effect to gate, and what a cut-short write leaves in the file is not modelled.
- Agent.RunAttempt: the provider's reply, the tools' results and the verifier's findings are an arbitrary world, so what a prompt says to the next attempt is not modelled; the exceeded error omits its number.
- ExperimentReadiness.EvaluateLayers: the control, harness, controller, routing, residency, commons, forge, studies, scheduler and artifact layers and the completeness of provenance are arbitrary inputs; warnings and details are not modelled.
- Integers beyond 64 bits handed to a kernel, and failures of the kernel runtime itself.
- Task profiling by keywords and the scoring of compatibility lanes: the profile and the chosen lane are inputs of the route.
- The command line, bridge, editor extension, Fabric, Commons and Ollama clients, workspace path checks, subprocesses and files: input and output.
