# Insurance attendance queue — a Dafny model

This project models the core of an insurance attendance back end. The
core is its **work queue** (`QueueManager` over the `atendimento_queue`
table). Messages arrive with a phone number and are enqueued, with
de-duplication by phone. Each item gets a position in
(priority, created_at) order. Workers claim items in batches, then mark
them completed or failed. A failure re-queues the item until the retry cap
of 3 is reached.

Around the queue the model also covers:

- the table schema (customers, policies, queue rows, sinistros) with its
  defaults and CHECK/UNIQUE/foreign-key constraints;
- the customer router: a customer lookup, a keyword intent classifier and
  the five-way flow decision;
- the standalone helpers `rankQueue` and `estimateWait`, the second
  keyword classifier and the mock fraud score;
- the five nodes of the claim (sinistro) pipeline, composed in the order
  the graph's edges declare.

Module layout, one module per source file plus shared helpers:

| module | file | models |
|---|---|---|
| `Wrappers` | wrappers.dfy | `Option`, for SQL NULL, Python None and absent keys |
| `Text` | text.dfy | lower/upper casing and substring search |
| `Numerals` | numerals.dfy | decimal rendering and parsing of integers |
| `Models` | models.dfy | api/models.py |
| `QueueTable` | queue_table.dfy | the table-level meaning of api/queue_manager.py (counting, claim, row transitions) |
| `Queue` | queue_manager.dfy | class `QueueManager`, the imperative engine |
| `QueueScenarios` | queue_scenarios.dfy | client runs of the engine |
| `CustomerRouter` | customer_router.dfy | api/customer_router.py |
| `QueueLogic` | queue_logic.dfy | logic/queue-logic.js |
| `RoutingLogic` | routing_logic.dfy | logic/routing-logic.py |
| `FraudAnalysis` | fraud_analysis.dfy | logic/fraud-analysis.js |
| `SinistroFlow` | sinistro_flow.dfy | workflows/langgraph/sinistro_flow.py |

How the queue is modelled:

- **State.** `QueueManager` holds three fields:
  - `rows`, the table in insertion order;
  - `nextId`, the id sequence;
  - `clock`, an abstract reading of `NOW()`.
- **Atomic steps.** Every operation is one atomic step. The row locking
  of `FOR UPDATE SKIP LOCKED` therefore becomes sequential claiming.
- **Clock.** The clock ticks on every statement that reads `NOW()`:
  insert, claim and completion.
- **Table invariant.** Ids and creation times strictly increase along the
  table, so no two rows share a (priority, created_at) key. This is how
  the model settles ties on `created_at`: it assumes a strictly
  increasing clock.
- **get_next.** Claiming is repeated extraction of the smallest waiting
  row. Its contract states which rows are claimed, not the order of the
  answer: the `RETURNING` list has no promised order.
- **Definitions and lemmas.** `ClaimStep`, `ClaimedInOrder`,
  `AnswersClaimedRows` and `ClaimedIffPositionBelow` are predicates. They
  only define what a claim is and which claim get_next makes. The lemma
  `ClaimIsPositionCut`, applied through `ClaimFinish`, proves that the
  claim get_next makes satisfies `ClaimedIffPositionBelow`: a waiting row
  is claimed exactly when its `_position` was below the batch size.
  `GetNext`'s contract carries that result.
- **Status transitions.** Neither `mark_completed` nor `mark_error` checks
  the prior status. The transitions the code allows are these:
  - only get_next makes a row PROCESSANDO, and only a row in AGUARDANDO,
    through its `WHERE status = 'AGUARDANDO'`
    (`ProcessandoOnlyFromWaiting`);
  - mark_completed makes a row of any status CONCLUIDO, so a completed or
    failed row can be completed again;
  - mark_error makes a row of any status AGUARDANDO or ERRO, and the retry
    count alone decides which. A failed CONCLUIDO row goes back to
    AGUARDANDO while retry_count + 1 < 3, and keeps its `result`. An ERRO
    row always has retry_count >= 3, so it stays ERRO
    (`ErroRowStaysErro`).

Where the code does less than its own comments and queries suggest, the
model follows the code:

- **Waiting rows per phone.** The comment on add_to_queue
  (api/queue_manager.py:11) says it avoids a duplicate AGUARDANDO row for
  the same phone. Only add_to_queue looks for one: mark_error puts a
  failed row back to AGUARDANDO without looking for a newer waiting row
  of the same phone. `QueueScenarios.TwoWaitingRowsForOnePhone` reaches
  two waiting rows for one phone:
  1. Claim a phone's row.
  2. Enqueue the same phone again.
  3. Fail the first row, which sends it back to AGUARDANDO.
- **Claim order.** The inner `SELECT` of get_next orders the rows by
  (priority, created_at). The `RETURNING` list of the `UPDATE` has no
  order, so the model promises only the set of claimed rows.
- **Policy validation.** `validate_policy` tests only whether customer
  data is present (`bool(s.get("customer_data"))`).
  `SinistroFlow.AnyCustomerRecordValidates` shows that a router record
  with `has_active_policy` false still validates.

## Model

| member | source | states |
|---|---|---|
| Models.QueueStatusName | api/models.py:92-96 | every queue status has a name that queue_status_check admits, and parsing that name gives the status back |
| Models.ParseQueueStatus | api/models.py:93-96 | a status text parses iff it is one of the four names queue_status_check lists |
| Models.ParseQueueStatusOnlyNames | api/models.py:80-84 | a status text is admitted only if it is the name of one of the four statuses |
| Models.PolicyStatusName | api/models.py:55-64 | every policy status name is admitted by policies_status_check and parses back to itself |
| Models.ParsePolicyStatus | api/models.py:63-65 | a status text parses iff it is one of the three names policies_status_check lists |
| Models.SinistroStatusName | api/models.py:111-124 | every sinistro status name is admitted by sinistros_status_check and parses back to itself |
| Models.ParseSinistroStatus | api/models.py:120-124 | a status text parses iff it is one of the four names sinistros_status_check lists |
| Models.NewSinistro | api/models.py:111-118 | a sinistro inserted without a status is OPEN, keeps the given id, customer_id, protocol and payload, and its created_at and updated_at are the insertion time |
| Models.CustomersValid | api/models.py:30-32 | under the primary key and UNIQUE(phone), a phone identifies at most one customer row |
| Models.PoliciesValid | api/models.py:52-54 | under UNIQUE(policy_number), a policy number identifies at most one policy row |
| Models.InsertPolicyKeepsValid | api/models.py:52-54 | an insert with a fresh id and policy number, for an existing customer, keeps the constraints |
| Models.SinistrosValid | api/models.py:108-110 | under UNIQUE(protocol), a protocol identifies at most one sinistro row (rows without a protocol are not constrained), and a row that names a customer names an existing one (the foreign key to customers.id) |
| Models.InsertSinistroKeepsValid | api/models.py:108-110 | an insert with a fresh id, a fresh or absent protocol, and an existing or absent customer keeps the constraints |
| QueueTable.NewRow | api/models.py:76-90 | an inserted queue row is AGUARDANDO with retry_count 0 and created_at = now, with no error, result, started_at or completed_at, and satisfies the row invariant |
| QueueTable.ErrorText | api/queue_manager.py:105 | the recorded error is never empty; a non-empty error is recorded as given, otherwise "unknown" |
| QueueTable.StartRow | api/queue_manager.py:60 | the row becomes PROCESSANDO with started_at = now; every other column is unchanged |
| QueueTable.CompleteRow | api/queue_manager.py:82-86 | the row becomes CONCLUIDO with completed_at = now and the given result; every other column is unchanged |
| QueueTable.FailRow | api/queue_manager.py:98-105 | retry_count grows by one; the row is ERRO iff the old retry_count + 1 >= 3, else AGUARDANDO; last_error is `error or "unknown"`; every other column is unchanged |
| QueueTable.ErroRowStaysErro | api/queue_manager.py:100 | a row in ERRO that fails again stays in ERRO |
| QueueTable.ProcessandoOnlyFromWaiting | api/queue_manager.py:59-63 | a claim makes a row PROCESSANDO only if it was AGUARDANDO; completing or failing a row never makes it PROCESSANDO |
| QueueTable.TickKeepsInvariant | api/queue_manager.py:60 | the table invariant survives the clock moving forward |
| QueueTable.StartKeepsInvariant | api/queue_manager.py:59-60 | moving a waiting row to PROCESSANDO with started_at = now keeps the table invariant |
| QueueTable.CompleteKeepsInvariant | api/queue_manager.py:82-86 | completing any row, whatever its status, keeps the table invariant |
| QueueTable.FailKeepsInvariant | api/queue_manager.py:98-103 | failing any row keeps the table invariant, including ERRO only at retry_count >= 3 |
| QueueTable.RetriesExhaust | api/queue_manager.py:100-102 | k failures add exactly k to retry_count; the row ends in ERRO iff the old count + k >= 3, else AGUARDANDO; last_error is recorded; no other column changes |
| QueueTable.FindIndex | api/queue_manager.py:42 | the lookup by id finds the first row with that id, or none iff no row has it |
| QueueTable.FindIndexUnique | api/models.py:76 | in a valid table the lookup by a row's id finds that row |
| QueueTable.CountWaitingIsCardinality | api/queue_manager.py:62-63 | the waiting count is the number of rows whose status is AGUARDANDO |
| QueueTable.RankIsCardinality | api/queue_manager.py:44-49 | the count below a key is the number of AGUARDANDO rows with a strictly smaller (priority, created_at) |
| QueueTable.PositionIsCount | api/queue_manager.py:38-53 | `_position` is the number of waiting rows whose key is below the target's; it is at most the waiting count, and 0 for an unknown id |
| QueueTable.RankMonotone | api/queue_manager.py:44-49 | the count of waiting rows below a key does not decrease as the key grows |
| QueueTable.RankAtMostCount | api/queue_manager.py:44-49 | no more rows are counted below a key than are waiting |
| QueueTable.RankStrict | api/queue_manager.py:46-49 | a waiting row with a smaller key has a strictly smaller count below it |
| QueueTable.RankBelowCount | api/queue_manager.py:44-49 | a waiting row never counts itself, so its count is below the number of waiting rows |
| QueueTable.RankZero | api/queue_manager.py:44-49 | when no waiting row is below a key, its count is 0 |
| QueueTable.NoWaitingCountsZero | api/queue_manager.py:62-63 | a table without waiting rows has a waiting count of 0 |
| QueueTable.CountWaitingAppend | api/queue_manager.py:26-33 | an inserted row adds one to the waiting count exactly when it waits |
| QueueTable.CountWaitingUpdate | api/queue_manager.py:59-61 | replacing one row changes the waiting count by the change in that row's waiting status |
| QueueTable.PositionOrder | api/queue_manager.py:38-53 | a waiting row whose (priority, created_at) is smaller has a strictly smaller position (same priority: created first; lower priority value: regardless of creation order) |
| QueueTable.PositionBelowWaitingCount | api/queue_manager.py:38-53 | a waiting row's position is below the number of waiting rows, so the only waiting row has position 0 |
| QueueTable.RankSameWaitingKeys | api/queue_manager.py:44-49 | counts depend only on which rows wait and their keys |
| QueueTable.RequeueRestoresPosition | api/queue_manager.py:98-103 | a row claimed and then failed below the cap waits again at exactly its position before the claim |
| QueueTable.ClaimStepShrinks | api/queue_manager.py:59-61 | a claim keeps ids and keys and never makes a row wait that did not |
| QueueTable.ClaimProgressStep | api/queue_manager.py:61-66 | claiming the smallest waiting row keeps the claimed rows answered, in order and counted |
| QueueTable.ClaimFinish | api/queue_manager.py:57-68 | the batch holds min(n, waiting) distinct claimed rows; the waiting count drops by that many; a row is claimed iff its position was below n |
| QueueTable.WaitingSplit | api/queue_manager.py:57-66 | the rows waiting before a claim are those still waiting plus those claimed |
| QueueTable.RankSplit | api/queue_manager.py:44-49 | a position before a claim is the position after it plus the claimed rows below the key |
| QueueTable.ClaimedBeforeAll | api/queue_manager.py:61-66 | when every claimed row is below a key, all claimed rows are counted below it |
| QueueTable.ClaimedBeforeAtMost | api/queue_manager.py:61-66 | the claimed rows below a key are at most all claimed rows |
| QueueTable.ClaimedBeforeMissing | api/queue_manager.py:61-66 | a claimed row not below a key is missing from the count below it |
| QueueTable.ClaimIsPositionCut | api/queue_manager.py:61-66 | claiming min(n, waiting) rows with no waiting row before a claimed one claims exactly the rows with position below n |
| QueueTable.ClaimedRowIsBelowCut | api/queue_manager.py:61-66 | a claimed row had fewer than n waiting rows before it |
| QueueTable.UnclaimedRowIsAtCut | api/queue_manager.py:61-66 | a waiting row left unclaimed had at least n waiting rows before it |
| QueueTable.NoRowClaimedTwice | api/queue_manager.py:58-68 | the items of two consecutive claims share no id |
| Queue.QueueManager.constructor | api/models.py:73-76 | an empty table whose id sequence starts at 1 |
| Queue.QueueManager.IndexOf | api/queue_manager.py:42 | the loop finds the row the lookup by id specifies |
| Queue.QueueManager.Position | api/queue_manager.py:38-53 | the counting loop answers `_position`: waiting rows with a strictly smaller (priority, created_at) than the target, 0 for an unknown id |
| Queue.QueueManager.FindWaiting | api/queue_manager.py:12-21 | finds a waiting row of the phone, or answers none iff the phone has no waiting row |
| Queue.QueueManager.AddToQueue | api/queue_manager.py:10-36 | with a waiting row for the phone: nothing changes and the earliest such row (by created_at) is answered; otherwise exactly one AGUARDANDO row with the given phone, message and priority is appended under a fresh id; both answer that row's position; the invariant is kept |
| Queue.QueueManager.MinWaitingIndex | api/queue_manager.py:62-66 | finds the waiting row that no waiting row precedes, or none iff nothing waits |
| Queue.QueueManager.GetNext | api/queue_manager.py:55-73 | a negative batch changes nothing. Otherwise exactly min(n, waiting) waiting rows become PROCESSANDO with started_at = now and every other row is unchanged. No still-waiting row precedes a claimed one. A row is claimed iff its position was below n. The answer is exactly the claimed rows, without repeats |
| Queue.QueueManager.ClaimInOrder | api/queue_manager.py:61-67 | repeated extraction of the smallest waiting row claims n rows, or stops when none waits |
| Queue.QueueManager.MarkCompleted | api/queue_manager.py:76-92 | the row with the id becomes CONCLUIDO with completed_at = now and the result, whatever its status; other rows are unchanged; an unknown id changes no row |
| Queue.QueueManager.MarkError | api/queue_manager.py:95-107 | the row with the id gets retry_count + 1, last_error = error or "unknown", and status ERRO iff old retry_count + 1 >= 3, else AGUARDANDO; priority and created_at are kept; other rows are unchanged |
| QueueScenarios.DedupSamePhone | api/queue_manager.py:12-24 | enqueueing one phone twice while the first row waits answers the same id and leaves one row |
| QueueScenarios.EmptyQueuePosition | api/queue_manager.py:38-53 | enqueueing into an empty queue answers position 0 |
| QueueScenarios.PositionTieBreak | api/queue_manager.py:46-49 | with equal priority the row created first has the smaller position |
| QueueScenarios.PositionPriorityWins | api/queue_manager.py:46-49 | a priority 1 row is ahead of a priority 9 row created earlier |
| QueueScenarios.RetryExhaustion | api/queue_manager.py:95-107 | three failures from a fresh row end in ERRO with retry_count 3 |
| QueueScenarios.FailTwiceThenComplete | api/queue_manager.py:76-107 | two failures and a completion end in CONCLUIDO with retry_count 2 and last_error "unknown" |
| QueueScenarios.ThreeWaiting | api/queue_manager.py:26-36 | three messages from three phones on an empty queue leave three waiting rows |
| QueueScenarios.TwoClaims | api/queue_manager.py:55-73 | with three waiting rows, a claim of five takes three and a second claim of five takes none |
| QueueScenarios.TwoWaitingRowsForOnePhone | api/queue_manager.py:95-107 | a failed row re-queues beside a newer waiting row of the same phone, so one phone has two waiting rows |
| CustomerRouter.HasActivePolicy | api/customer_router.py:15-18 | true iff some policy of the customer is ACTIVE |
| CustomerRouter.FindCustomer | api/customer_router.py:9-26 | none iff no customer has the phone; otherwise a customer with the phone, with has_active_policy iff one of its policies is ACTIVE |
| CustomerRouter.FindCustomerIsTheOwner | api/customer_router.py:20-21 | with unique phones, the customer found is the one holding the phone |
| CustomerRouter.IntentName | api/customer_router.py:31-34 | the intent is always SINISTRO, VENDAS or NEUTRO |
| CustomerRouter.ClassifyIntent | api/customer_router.py:28-34 | SINISTRO iff a claim word occurs in the lower-cased message; VENDAS iff no claim word and a sales word occurs; NEUTRO otherwise |
| CustomerRouter.NoMessageIsNeutro | api/customer_router.py:29 | a missing or empty message is NEUTRO |
| CustomerRouter.UpperCaseSameIntent | api/customer_router.py:29 | upper-casing the ASCII and Latin-1 letters of a message does not change its intent |
| CustomerRouter.Flow.Name | api/customer_router.py:45-80 | the flow is always one of the five flow names |
| CustomerRouter.Flow.Subworkflow | api/customer_router.py:46-81 | the subworkflow is one of the five the router answers |
| CustomerRouter.Flow.NextAction | api/customer_router.py:48-83 | the next action is one of the five the router answers |
| CustomerRouter.FlowLabelsIdentifyFlow | api/customer_router.py:44-84 | the flow name, the subworkflow and the next action each determine the flow |
| CustomerRouter.Route | api/customer_router.py:37-84 | five flows, each with the condition that selects it. SINISTRO: claim intent and active policy. SINISTRO_INTAKE: claim intent, no customer or no active policy. REATIVACAO: other intent and a known customer without one. VENDAS: sales intent otherwise. TRIAGEM: neutral intent otherwise. customer_data is the lookup result |
| CustomerRouter.RouteValidatesPolicyIff | api/customer_router.py:42-49 | for a claim message, the next action is VALIDATE_POLICY iff the phone's owner holds an ACTIVE policy |
| CustomerRouter.LapsedCustomerIsOfferedRenewal | api/customer_router.py:61-67 | a sales message from a known customer without an active policy goes to REATIVACAO |
| RoutingLogic.CategoryName | logic/routing-logic.py:4-8 | the category is always SINISTRO, VENDAS or TRIAGEM |
| RoutingLogic.ClassifyIntent | logic/routing-logic.py:2-8 | SINISTRO iff "sinistro" or "batida" occurs; VENDAS iff not and "seguro", "cotação" or "venda" occurs; TRIAGEM otherwise |
| RoutingLogic.NoMessageIsTriagem | logic/routing-logic.py:3-8 | a missing or empty message is TRIAGEM |
| RoutingLogic.UpperCaseSameCategory | logic/routing-logic.py:3 | upper-casing the ASCII and Latin-1 letters of the message does not change its category |
| RoutingLogic.LowerCaseSameCategory | logic/routing-logic.py:3 | lower-casing the message does not change its category |
| QueueLogic.Insert | logic/queue-logic.js:4-6 | inserting an item gives the old items plus it, as a multiset |
| QueueLogic.InsertSorted | logic/queue-logic.js:4-6 | inserting into a sorted sequence keeps it sorted |
| QueueLogic.RankQueue | logic/queue-logic.js:2-7 | the answer is sorted by priority, then created_at, and is a permutation of the input of the same length |
| QueueLogic.Minutes | logic/queue-logic.js:9 | the minutes are the ceiling of position * avgSeconds / 60 |
| QueueLogic.EstimateWait | logic/queue-logic.js:8-11 | the text ends with " minutos", and what precedes it is the minute count's shortest numeral (no leading zero), which reads back as the count |
| QueueLogic.DefaultMinutesArePosition | logic/queue-logic.js:8-9 | with the default 60 seconds the minutes equal the position |
| QueueLogic.MinutesMonotone | logic/queue-logic.js:9 | for a non-negative average, a later position never gets fewer minutes |
| Numerals.NatToString | logic/queue-logic.js:10 | a numeral is non-empty, all digits, without a leading zero |
| Numerals.NatToStringRoundTrip | logic/queue-logic.js:10 | reading a rendered numeral gives the number back |
| Numerals.IntToString | logic/queue-logic.js:10 | a negative number is written with a leading '-', others with digits only; the digits are at least one and have no leading zero |
| Numerals.IntToStringRoundTrip | logic/queue-logic.js:10 | parsing a rendered integer gives it back |
| FraudAnalysis.FraudScore | logic/fraud-analysis.js:2-8 | the score is in {10, 25, 30, 45}, so within 10..100; it is 30 or 45 iff "urgente" occurs case-insensitively, and 25 or 45 iff "batida" does |
| FraudAnalysis.MessageOf | logic/fraud-analysis.js:5-6 | `payload?.message` is defined iff the payload is an object with a message field, and then it is that field |
| FraudAnalysis.JsString | logic/fraud-analysis.js:5-6 | the text the test coerces its argument to: null as "null", a string as it is, a number as its shortest numeral, which reads back to it, a boolean as "true" or "false", an object as "[object Object]", an empty array as "" and a one-element array as its element's text |
| FraudAnalysis.NoMessageScoresTen | logic/fraud-analysis.js:5-6 | a missing payload or message, or a null one, scores 10 |
| FraudAnalysis.NeitherWordMentioned | logic/fraud-analysis.js:5-6 | a lower-case text without 'r' and 'b' passes neither test |
| FraudAnalysis.UpperCaseSameScore | logic/fraud-analysis.js:5-6 | upper-casing the ASCII and Latin-1 letters of the message does not change the score |
| SinistroFlow.SinistroState.constructor | workflows/langgraph/sinistro_flow.py:4-13 | a state holds exactly the given keys |
| SinistroFlow.Truthy | workflows/langgraph/sinistro_flow.py:16 | a JSON value is false iff it is null, false, 0, "", [] or {} |
| SinistroFlow.ValidatePolicy | workflows/langgraph/sinistro_flow.py:15-17 | policy_validated becomes true iff customer_data is present and non-empty; nothing else changes |
| SinistroFlow.ClassifyClaim | workflows/langgraph/sinistro_flow.py:19-21 | claim_classified becomes true; nothing else changes |
| SinistroFlow.AnalyzeFraud | workflows/langgraph/sinistro_flow.py:23-25 | fraud_analyzed becomes true; nothing else changes |
| SinistroFlow.GenerateProtocol | workflows/langgraph/sinistro_flow.py:27-29 | protocol_generated becomes "SIN000001"; nothing else changes |
| SinistroFlow.SendResponse | workflows/langgraph/sinistro_flow.py:31-33 | response_sent becomes true; nothing else changes |
| SinistroFlow.AfterPipeline | workflows/langgraph/sinistro_flow.py:43-47 | after a run, all four flags and the protocol are set. policy_validated reflects customer_data. Every other key keeps its value |
| SinistroFlow.RunPipeline | workflows/langgraph/sinistro_flow.py:35-48 | the nodes run in edge order and leave the state as AfterPipeline describes |
| SinistroFlow.PipelineIdempotent | workflows/langgraph/sinistro_flow.py:15-33 | a second run changes nothing |
| SinistroFlow.PipelineLeavesError | workflows/langgraph/sinistro_flow.py:13 | the error key is never set or changed |
| SinistroFlow.AnyCustomerRecordValidates | workflows/langgraph/sinistro_flow.py:15-17 | any router customer record validates the policy, even without an active policy |
| Text.LowerChar | api/customer_router.py:29 | capitals map to their small letter 32 code points up; other characters are kept |
| Text.UpperChar | logic/routing-logic.py:3 | ASCII and Latin-1 small letters map to their capital 32 code points down; other characters are kept |
| Text.Lower | api/customer_router.py:29 | lower-casing keeps the length and maps each character |
| Text.Upper | logic/routing-logic.py:3 | upper-casing the ASCII and Latin-1 letters keeps the length and maps each character |
| Text.LowerIdempotent | logic/routing-logic.py:3 | lower-casing twice is lower-casing once |
| Text.Normalized | api/customer_router.py:29 | `(message or "").lower()` of both classifiers (also logic/routing-logic.py line 3): each character is the lower-case form of the message's character at that place; the text is as long as the message, already lower-case, and empty for a missing message |
| Text.LowerWithoutCapitals | api/customer_router.py:29 | a text without capitals is unchanged by lower-casing |
| Text.LowerOfUpper | logic/routing-logic.py:3 | for the ASCII and Latin-1 case mapping, lower-casing an upper-cased text is lower-casing the text |
| Text.Contains | api/customer_router.py:30 | `k in s` holds iff k occurs at some index of s |
| Text.MissingCharNotContained | logic/fraud-analysis.js:5-6 | a keyword with a character the text lacks does not occur in it |
| Text.ContainsAny | api/customer_router.py:30 | true iff one of the keywords occurs |

## Left out

- Concurrency: row locks, `SKIP LOCKED`, transactions and commits are left out. Each operation is one sequential atomic step.
- Timestamps: `NOW()` and the server defaults are abstract clock readings, not real times.
- The `"~5 min"` `estimated_wait` display string of add_to_queue is left out. It is a constant.
- The store is in-memory. Connection handling and sessions (api/db.py) are not part of this model.
- api/main.py is not part of this model. That includes HTTP handlers and input validation (non-empty phone and message).
- The node-fetch HTTP clients (api/queue-manager.js, api/customer_router.js) are not part of this model.
- The `user_sessions` table is not part of this model. No modelled code uses it.
- The langgraph runtime (`StateGraph`, `compile`) is left out. Only its fixed edge order is modelled.
- Column widths are not modelled: 32-bit `Integer`, 64-bit `BigInteger`, `String(16)` and `String(64)`.
- Text.Lower: covers ASCII and the Latin-1 letters only, not the full Unicode `str.lower()` of Python. All keywords are ASCII or Latin-1. For the ASCII keywords of the fraud score it matches a JavaScript `/i` test exactly.
- FraudAnalysis.JsString: numbers are integers only. Floating-point renderings, `NaN` and other JavaScript values outside JSON are left out. For arrays of two or more elements the contract does not state the comma join; JoinItems computes it but no lemma characterises it.
- QueueLogic.RankQueue: `priority` and `created_at` are integers. JavaScript floats, invalid dates (`NaN` comparisons) and non-numeric priorities are not modelled.
- QueueLogic.RankQueue: does not state stability, i.e. that items with equal keys keep their input order as `Array.prototype.sort` guarantees. Only sortedness and permutation are proved, although the insertion places an item after equal keys.
- Text.UpperChar: raises only the small letters a-z and U+00E0..U+00FE (without U+00F7). Python's `str.upper()` and JavaScript's `toUpperCase()` also map 'ſ' (U+017F) to 'S', 'ı' (U+0131) to 'I', 'ÿ' to 'Ÿ' (U+0178) and 'µ' to 'Μ' (U+039C), and turn 'ß' into "SS".
- Text.Upper: is the model's own upper-casing, built on UpperChar, and keeps the length. `str.upper()` does not keep it: "ß".upper() is "SS".
- Text.LowerOfUpper: holds for the model's case mapping only. In Python "ſ".upper().lower() is "s", not "ſ".
- CustomerRouter.UpperCaseSameIntent: states the invariance for the model's ASCII/Latin-1 upper-casing only. With `str.upper()` it fails: "ſinistro" is NEUTRO, but its upper-case form "SINISTRO" is SINISTRO.
- RoutingLogic.UpperCaseSameCategory: states the invariance for the model's ASCII/Latin-1 upper-casing only. With `str.upper()` it fails: "ſinistro" is TRIAGEM, but its upper-case form "SINISTRO" is SINISTRO.
- FraudAnalysis.UpperCaseSameScore: states the invariance for the model's ASCII/Latin-1 upper-casing only. With `toUpperCase()` it fails: `{message: "batıda"}` scores 10, but its upper-case form "BATIDA" scores 25.
- QueueLogic.Minutes: position and avgSeconds are integers. JavaScript numbers are floating point, so a fractional average (avgSeconds = 45.5), rounding in the product, `NaN` and non-numeric arguments are not modelled.
- QueueLogic.EstimateWait: renders the minute count as a plain decimal integer. The exponent form that a JavaScript template literal uses for magnitudes of 1e21 and above is not modelled.
- QueueTable.NewRow: assumes that the database applies status 'AGUARDANDO' and retry_count 0 to the raw INSERT of api/queue_manager.py:28, which names only phone, message and priority. api/models.py declares these two values only as client-side `default=` (lines 83 and 85), which a textual INSERT does not use. Only created_at has a server default there. If the database schema had no DEFAULT for these NOT NULL columns, the INSERT would fail.
- Queue.QueueManager.GetNext: the order of the answered list is not stated, because the store promises none.
- Queue.QueueManager.MarkCompleted: Python's `None` result is passed as the JSON null value, as JSONB stores it.
