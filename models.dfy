/**
 * The tables of the system (customers, policies, atendimento_queue,
 * sinistros): their columns, defaults and CHECK / UNIQUE constraints.
 * Nullable columns are `Option`s; a status column is a closed enumeration,
 * and the CHECK constraint on its text is the parser of the enumeration's
 * names. Timestamps are readings of an abstract clock (`nat`).
 */
module Models {
  import opened Wrappers

  /** A JSONB value: opaque to the system, stored and handed back as is. */
  datatype Json =
    | JNull
    | JBool(b: bool)
    | JNumber(n: int)
    | JString(s: string)
    | JArray(items: seq<Json>)
    | JObject(fields: map<string, Json>)

  // ----- atendimento_queue -----

  /** The four statuses that queue_status_check admits. */
  datatype QueueStatus = Aguardando | Processando | Concluido | Erro

  function QueueStatusName(s: QueueStatus): (name: string)
    ensures ParseQueueStatus(name) == Some(s)
  {
    match s
    case Aguardando => "AGUARDANDO"
    case Processando => "PROCESSANDO"
    case Concluido => "CONCLUIDO"
    case Erro => "ERRO"
  }

  /** queue_status_check: a status text is admitted iff it parses. */
  function ParseQueueStatus(text: string): (r: Option<QueueStatus>)
    ensures r.Some? <==> text in {"AGUARDANDO", "PROCESSANDO", "CONCLUIDO", "ERRO"}
  {
    if text == "AGUARDANDO" then Some(Aguardando)
    else if text == "PROCESSANDO" then Some(Processando)
    else if text == "CONCLUIDO" then Some(Concluido)
    else if text == "ERRO" then Some(Erro)
    else None
  }

  lemma ParseQueueStatusOnlyNames(text: string)
    ensures ParseQueueStatus(text).Some? ==> QueueStatusName(ParseQueueStatus(text).value) == text
  {
  }

  const DefaultPriority: int := 5

  /**
   * One row of atendimento_queue. `status` and `retryCount` are never NULL;
   * `lastError`, `result`, `startedAt` and `completedAt` may be.
   */
  datatype QueueRow = QueueRow(
    id: nat,
    phone: string,
    message: string,
    priority: int,
    status: QueueStatus,
    retryCount: nat,
    lastError: Option<string>,
    result: Option<Json>,
    createdAt: nat,
    startedAt: Option<nat>,
    completedAt: Option<nat>)

  // ----- customers and policies -----

  datatype Customer = Customer(id: nat, name: string, phone: string, createdAt: nat)

  /** The three statuses that policies_status_check admits. */
  datatype PolicyStatus = Active | Inactive | Cancelled

  function PolicyStatusName(s: PolicyStatus): (name: string)
    ensures ParsePolicyStatus(name) == Some(s)
  {
    match s
    case Active => "ACTIVE"
    case Inactive => "INACTIVE"
    case Cancelled => "CANCELLED"
  }

  /** policies_status_check: a status text is admitted iff it parses. */
  function ParsePolicyStatus(text: string): (r: Option<PolicyStatus>)
    ensures r.Some? <==> text in {"ACTIVE", "INACTIVE", "CANCELLED"}
  {
    if text == "ACTIVE" then Some(Active)
    else if text == "INACTIVE" then Some(Inactive)
    else if text == "CANCELLED" then Some(Cancelled)
    else None
  }

  datatype Policy = Policy(
    id: nat,
    customerId: nat,
    policyNumber: string,
    status: PolicyStatus,
    startDate: Option<nat>,
    endDate: Option<nat>,
    createdAt: nat)

  /** UNIQUE(customers.phone) and the primary key. */
  predicate CustomersValid(customers: seq<Customer>): (ok: bool)
    ensures ok ==> forall i, j :: 0 <= i < |customers| && 0 <= j < |customers| && customers[i].phone == customers[j].phone ==> i == j
  {
    forall i, j :: 0 <= i < j < |customers| ==>
      customers[i].phone != customers[j].phone && customers[i].id != customers[j].id
  }

  /** UNIQUE(policies.policy_number), the primary key and the foreign key to customers. */
  predicate PoliciesValid(policies: seq<Policy>, customers: seq<Customer>): (ok: bool)
    ensures ok ==> forall i, j :: 0 <= i < |policies| && 0 <= j < |policies| && policies[i].policyNumber == policies[j].policyNumber ==> i == j
  {
    && (forall i, j :: 0 <= i < j < |policies| ==>
          policies[i].policyNumber != policies[j].policyNumber && policies[i].id != policies[j].id)
    && (forall i :: 0 <= i < |policies| ==>
          exists c :: 0 <= c < |customers| && customers[c].id == policies[i].customerId)
  }

  /**
   * An INSERT into policies that the constraints accept: a fresh policy
   * number and id, for an existing customer.
   */
  lemma InsertPolicyKeepsValid(policies: seq<Policy>, customers: seq<Customer>, p: Policy)
    requires PoliciesValid(policies, customers)
    requires forall i :: 0 <= i < |policies| ==> policies[i].policyNumber != p.policyNumber && policies[i].id != p.id
    requires exists c :: 0 <= c < |customers| && customers[c].id == p.customerId
    ensures PoliciesValid(policies + [p], customers)
  {
    var all := policies + [p];
    forall i | 0 <= i < |all|
      ensures exists c :: 0 <= c < |customers| && customers[c].id == all[i].customerId
    {
      if i < |policies| {
        assert all[i] == policies[i];
      }
    }
  }

  // ----- sinistros -----

  /** The four statuses that sinistros_status_check admits. */
  datatype SinistroStatus = Open | InReview | Closed | Rejected

  function SinistroStatusName(s: SinistroStatus): (name: string)
    ensures ParseSinistroStatus(name) == Some(s)
  {
    match s
    case Open => "OPEN"
    case InReview => "IN_REVIEW"
    case Closed => "CLOSED"
    case Rejected => "REJECTED"
  }

  /** sinistros_status_check: a status text is admitted iff it parses. */
  function ParseSinistroStatus(text: string): (r: Option<SinistroStatus>)
    ensures r.Some? <==> text in {"OPEN", "IN_REVIEW", "CLOSED", "REJECTED"}
  {
    if text == "OPEN" then Some(Open)
    else if text == "IN_REVIEW" then Some(InReview)
    else if text == "CLOSED" then Some(Closed)
    else if text == "REJECTED" then Some(Rejected)
    else None
  }

  datatype Sinistro = Sinistro(
    id: nat,
    customerId: Option<nat>,
    protocol: Option<string>,
    status: SinistroStatus,
    payload: Option<Json>,
    createdAt: nat,
    updatedAt: nat)

  /** A sinistro row as inserted without a status: the column default is OPEN. */
  function NewSinistro(id: nat, customerId: Option<nat>, protocol: Option<string>, payload: Option<Json>, now: nat): (s: Sinistro)
    ensures s.id == id && s.customerId == customerId && s.protocol == protocol && s.payload == payload
    ensures s.status == Open && SinistroStatusName(s.status) == "OPEN"
    ensures s.createdAt == now == s.updatedAt
  {
    Sinistro(id, customerId, protocol, Open, payload, now, now)
  }

  /**
   * UNIQUE(sinistros.protocol) over the rows that have one, the primary key,
   * and the foreign key to customers for the rows that name a customer.
   */
  predicate SinistrosValid(sinistros: seq<Sinistro>, customers: seq<Customer>): (ok: bool)
    ensures ok ==> forall i, j :: 0 <= i < |sinistros| && 0 <= j < |sinistros| && sinistros[i].protocol.Some? && sinistros[i].protocol == sinistros[j].protocol ==> i == j
    ensures ok ==> forall i :: 0 <= i < |sinistros| && sinistros[i].customerId.Some? ==>
                     exists c :: 0 <= c < |customers| && customers[c].id == sinistros[i].customerId.value
  {
    && (forall i, j :: 0 <= i < j < |sinistros| ==>
          sinistros[i].id != sinistros[j].id &&
          (sinistros[i].protocol.Some? ==> sinistros[i].protocol != sinistros[j].protocol))
    && (forall i :: 0 <= i < |sinistros| && sinistros[i].customerId.Some? ==>
          exists c :: 0 <= c < |customers| && customers[c].id == sinistros[i].customerId.value)
  }

  /**
   * An INSERT into sinistros that the constraints accept: a fresh id, a fresh
   * protocol if it has one, and an existing customer if it names one.
   */
  lemma InsertSinistroKeepsValid(sinistros: seq<Sinistro>, customers: seq<Customer>, s: Sinistro)
    requires SinistrosValid(sinistros, customers)
    requires forall i :: 0 <= i < |sinistros| ==>
               sinistros[i].id != s.id && (s.protocol.Some? ==> sinistros[i].protocol != s.protocol)
    requires s.customerId.Some? ==> exists c :: 0 <= c < |customers| && customers[c].id == s.customerId.value
    ensures SinistrosValid(sinistros + [s], customers)
  {
    var all := sinistros + [s];
    forall i, j | 0 <= i < j < |all|
      ensures all[i].id != all[j].id && (all[i].protocol.Some? ==> all[i].protocol != all[j].protocol)
    {
      if j < |sinistros| {
        assert all[i] == sinistros[i] && all[j] == sinistros[j];
      } else {
        assert all[i] == sinistros[i] && all[j] == s;
      }
    }
    forall i | 0 <= i < |all| && all[i].customerId.Some?
      ensures exists c :: 0 <= c < |customers| && customers[c].id == all[i].customerId.value
    {
      if i < |sinistros| {
        assert all[i] == sinistros[i];
      }
    }
  }
}
