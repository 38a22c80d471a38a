/**
 * The customer router of api/customer_router.py: a customer lookup over
 * the customers and policies tables, a keyword intent classifier, and the
 * five-way decision table that picks a flow from the two.
 */
module CustomerRouter {
  import opened Wrappers
  import opened Models
  import opened Text

  // ----- find_customer -----

  /** The record find_customer answers: id, name and has_active_policy. */
  datatype CustomerData = CustomerData(id: nat, name: string, hasActivePolicy: bool)

  /** `EXISTS(SELECT 1 FROM policies WHERE customer_id = id AND status = 'ACTIVE')`. */
  function HasActivePolicy(policies: seq<Policy>, customerId: nat): (b: bool)
    ensures b <==> exists p :: 0 <= p < |policies| && policies[p].customerId == customerId && policies[p].status == Active
  {
    if policies == [] then false
    else
      (policies[0].customerId == customerId && policies[0].status == Active)
      || HasActivePolicy(policies[1..], customerId)
  }

  /**
   * find_customer: the customer with this phone, with whether one of its
   * policies is ACTIVE, or None when no customer has the phone. The query
   * has LIMIT 1 and no ORDER BY; the first customer in table order is taken.
   */
  function FindCustomer(customers: seq<Customer>, policies: seq<Policy>, phone: string): (r: Option<CustomerData>)
    ensures r.None? <==> forall i :: 0 <= i < |customers| ==> customers[i].phone != phone
    ensures r.Some? ==>
              && (exists i :: 0 <= i < |customers| && customers[i].phone == phone
                                && r.value.id == customers[i].id && r.value.name == customers[i].name)
              && (r.value.hasActivePolicy <==>
                    exists p :: 0 <= p < |policies| && policies[p].customerId == r.value.id && policies[p].status == Active)
  {
    if customers == [] then None
    else if customers[0].phone == phone then
      Some(CustomerData(customers[0].id, customers[0].name, HasActivePolicy(policies, customers[0].id)))
    else
      var r := FindCustomer(customers[1..], policies, phone);
      assert forall i :: 0 < i < |customers| ==> customers[i] == customers[1..][i - 1];
      r
  }

  /** With unique phones, the customer found is the one holding the phone. */
  lemma {:induction false} FindCustomerIsTheOwner(customers: seq<Customer>, policies: seq<Policy>, phone: string, i: nat)
    requires CustomersValid(customers)
    requires i < |customers| && customers[i].phone == phone
    ensures FindCustomer(customers, policies, phone).Some?
    ensures FindCustomer(customers, policies, phone).value.id == customers[i].id
    ensures FindCustomer(customers, policies, phone).value.name == customers[i].name
  {
    var r := FindCustomer(customers, policies, phone);
    var k :| 0 <= k < |customers| && customers[k].phone == phone
             && r.value.id == customers[k].id && r.value.name == customers[k].name;
    // phones are unique, so k is i
  }

  // ----- classify_intent -----

  datatype Intent = SinistroIntent | VendasIntent | NeutroIntent

  function IntentName(i: Intent): (name: string)
    ensures name in {"SINISTRO", "VENDAS", "NEUTRO"}
  {
    match i
    case SinistroIntent => "SINISTRO"
    case VendasIntent => "VENDAS"
    case NeutroIntent => "NEUTRO"
  }

  const ClaimWords: seq<string> := ["sinistro", "batida", "roubo", "acidente"]
  const SalesWords: seq<string> :=
    ["comprar", "cota\U{00E7}\U{00E3}o", "cotacao", "renovar", "reativar", "simula\U{00E7}\U{00E3}o", "simulacao"]

  /**
   * classify_intent: SINISTRO when a claim word occurs in the lower-cased
   * message; otherwise VENDAS when a sales word occurs; otherwise NEUTRO.
   */
  function ClassifyIntent(message: Option<string>): (c: Intent)
    ensures c == SinistroIntent <==>
              exists j :: 0 <= j < |ClaimWords| && Contains(Normalized(message), ClaimWords[j])
    ensures c == VendasIntent <==>
              && (forall j :: 0 <= j < |ClaimWords| ==> !Contains(Normalized(message), ClaimWords[j]))
              && (exists j :: 0 <= j < |SalesWords| && Contains(Normalized(message), SalesWords[j]))
  {
    var m := Normalized(message);
    if ContainsAny(m, ClaimWords) then SinistroIntent
    else if ContainsAny(m, SalesWords) then VendasIntent
    else NeutroIntent
  }

  /** A missing or empty message is NEUTRO. */
  lemma NoMessageIsNeutro(message: Option<string>)
    requires message.None? || message == Some("")
    ensures ClassifyIntent(message) == NeutroIntent
  {
    assert Normalized(message) == [];
    assert !ContainsAny([], ClaimWords) && !ContainsAny([], SalesWords);
  }

  /** Upper-casing the message does not change its intent. */
  lemma {:induction false} UpperCaseSameIntent(s: string)
    ensures ClassifyIntent(Some(Upper(s))) == ClassifyIntent(Some(s))
  {
    LowerOfUpper(s);
  }

  // ----- route -----

  datatype Flow = SinistroFlow | SinistroIntakeFlow | ReativacaoFlow | VendasFlow | TriagemFlow {

    function Name(): (name: string)
      ensures name in {"SINISTRO", "SINISTRO_INTAKE", "REATIVACAO", "VENDAS", "TRIAGEM"}
    {
      match this
      case SinistroFlow => "SINISTRO"
      case SinistroIntakeFlow => "SINISTRO_INTAKE"
      case ReativacaoFlow => "REATIVACAO"
      case VendasFlow => "VENDAS"
      case TriagemFlow => "TRIAGEM"
    }

    function Subworkflow(): (name: string)
      ensures name in {"process-sinistro", "collect-identity-and-policy", "process-reativacao", "process-vendas", "process-triagem"}
    {
      match this
      case SinistroFlow => "process-sinistro"
      case SinistroIntakeFlow => "collect-identity-and-policy"
      case ReativacaoFlow => "process-reativacao"
      case VendasFlow => "process-vendas"
      case TriagemFlow => "process-triagem"
    }

    function NextAction(): (action: string)
      ensures action in {"VALIDATE_POLICY", "COLLECT_ID_AND_POLICY", "OFFER_RENEWAL", "COLLECT_LEAD_INFO", "ASK_INTENT"}
    {
      match this
      case SinistroFlow => "VALIDATE_POLICY"
      case SinistroIntakeFlow => "COLLECT_ID_AND_POLICY"
      case ReativacaoFlow => "OFFER_RENEWAL"
      case VendasFlow => "COLLECT_LEAD_INFO"
      case TriagemFlow => "ASK_INTENT"
    }
  }

  /** Each of the three labels of a decision names its flow: no two flows share one. */
  lemma FlowLabelsIdentifyFlow(f: Flow, g: Flow)
    ensures f.Name() == g.Name() ==> f == g
    ensures f.Subworkflow() == g.Subworkflow() ==> f == g
    ensures f.NextAction() == g.NextAction() ==> f == g
  {
  }

  /** The routing answer: flow, sub-workflow, the looked-up customer and the next action. */
  datatype Decision = Decision(flow: Flow, subworkflow: string, customerData: Option<CustomerData>, nextAction: string)

  /** The customer is known and has an active policy (`cust and cust["has_active_policy"]`). */
  predicate ActiveCustomer(cust: Option<CustomerData>) {
    cust.Some? && cust.value.hasActivePolicy
  }

  /**
   * route: a claim intent goes to SINISTRO for a customer with an active
   * policy and to SINISTRO_INTAKE otherwise; any other intent from a known
   * customer without an active policy goes to REATIVACAO; then a sales
   * intent goes to VENDAS and everything else to TRIAGEM.
   */
  function Route(customers: seq<Customer>, policies: seq<Policy>, phone: string, message: Option<string>): (d: Decision)
    ensures d.customerData == FindCustomer(customers, policies, phone)
    ensures d.subworkflow == d.flow.Subworkflow() && d.nextAction == d.flow.NextAction()
    ensures var intent, cust := ClassifyIntent(message), d.customerData;
            && (d.flow == SinistroFlow <==> intent == SinistroIntent && ActiveCustomer(cust))
            && (d.flow == SinistroIntakeFlow <==> intent == SinistroIntent && !ActiveCustomer(cust))
            && (d.flow == ReativacaoFlow <==> intent != SinistroIntent && cust.Some? && !cust.value.hasActivePolicy)
            && (d.flow == VendasFlow <==> intent == VendasIntent && (cust.None? || cust.value.hasActivePolicy))
            && (d.flow == TriagemFlow <==> intent == NeutroIntent && (cust.None? || cust.value.hasActivePolicy))
  {
    var cust := FindCustomer(customers, policies, phone);
    var intent := ClassifyIntent(message);
    var flow :=
      if intent == SinistroIntent then
        (if ActiveCustomer(cust) then SinistroFlow else SinistroIntakeFlow)
      else if cust.Some? && !cust.value.hasActivePolicy then ReativacaoFlow
      else if intent == VendasIntent then VendasFlow
      else TriagemFlow;
    Decision(flow, flow.Subworkflow(), cust, flow.NextAction())
  }

  /**
   * In terms of the tables: with unique phones, a message naming a claim
   * is sent to policy validation exactly when the phone's owner holds an
   * ACTIVE policy.
   */
  lemma RouteValidatesPolicyIff(customers: seq<Customer>, policies: seq<Policy>, phone: string, message: Option<string>)
    requires CustomersValid(customers)
    requires ClassifyIntent(message) == SinistroIntent
    ensures Route(customers, policies, phone, message).nextAction == "VALIDATE_POLICY" <==>
              exists i, p :: 0 <= i < |customers| && 0 <= p < |policies| && customers[i].phone == phone
                             && policies[p].customerId == customers[i].id && policies[p].status == Active
  {
    var d := Route(customers, policies, phone, message);
    if exists i, p :: 0 <= i < |customers| && 0 <= p < |policies| && customers[i].phone == phone
                      && policies[p].customerId == customers[i].id && policies[p].status == Active {
      var i, p :| 0 <= i < |customers| && 0 <= p < |policies| && customers[i].phone == phone
                  && policies[p].customerId == customers[i].id && policies[p].status == Active;
      FindCustomerIsTheOwner(customers, policies, phone, i);
    }
  }

  /** A sales message from a known customer without an active policy is still offered renewal. */
  lemma LapsedCustomerIsOfferedRenewal(customers: seq<Customer>, policies: seq<Policy>, phone: string, message: Option<string>, i: nat)
    requires CustomersValid(customers)
    requires i < |customers| && customers[i].phone == phone
    requires forall p :: 0 <= p < |policies| ==> !(policies[p].customerId == customers[i].id && policies[p].status == Active)
    requires ClassifyIntent(message) == VendasIntent
    ensures Route(customers, policies, phone, message).flow == ReativacaoFlow
  {
    FindCustomerIsTheOwner(customers, policies, phone, i);
  }
}
