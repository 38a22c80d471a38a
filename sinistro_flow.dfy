/**
 * The claim (sinistro) pipeline of workflows/langgraph/sinistro_flow.py.
 * The state is a dictionary that every node updates in place and hands on;
 * the graph runs the five nodes in the order its edges declare. Keys of the
 * dictionary may be absent (the state type is not total).
 */
module SinistroFlow {
  import opened Models
  import CustomerRouter

  /** The keys of SinistroState. */
  datatype Key =
    | Phone | Message | CustomerData
    | PolicyValidated | ClaimClassified | FraudAnalyzed | ProtocolGenerated | ResponseSent
    | Error

  /** The keys the five nodes write. */
  const NodeKeys: set<Key> := {PolicyValidated, ClaimClassified, FraudAnalyzed, ProtocolGenerated, ResponseSent}

  /** The protocol generate_protocol writes: "SIN" followed by "000001". */
  const Protocol: string := "SIN" + "000001"

  /** Python's `bool(v)`: null, false, zero and empty texts and collections are false. */
  predicate Truthy(v: Json): (b: bool)
    ensures !b <==> v in {JNull, JBool(false), JNumber(0), JString(""), JArray([]), JObject(map[])}
  {
    match v
    case JNull => false
    case JBool(b) => b
    case JNumber(n) => n != 0
    case JString(s) => s != ""
    case JArray(items) => items != []
    case JObject(fields) => fields != map[]
  }

  /** `bool(s.get("customer_data"))`: an absent key reads as None, which is false. */
  predicate HasCustomerData(data: map<Key, Json>) {
    CustomerData in data && Truthy(data[CustomerData])
  }

  class SinistroState {
    var data: map<Key, Json>

    constructor (initial: map<Key, Json>)
      ensures data == initial
    {
      data := initial;
    }
  }

  /** validate_policy: `policy_validated` becomes whether customer data is present and non-empty. */
  method ValidatePolicy(s: SinistroState) returns (r: SinistroState)
    modifies s
    ensures r == s
    ensures s.data == old(s.data)[PolicyValidated := JBool(HasCustomerData(old(s.data)))]
  {
    s.data := s.data[PolicyValidated := JBool(HasCustomerData(s.data))];
    return s;
  }

  /** classify_claim: `claim_classified` becomes true. */
  method ClassifyClaim(s: SinistroState) returns (r: SinistroState)
    modifies s
    ensures r == s
    ensures s.data == old(s.data)[ClaimClassified := JBool(true)]
  {
    s.data := s.data[ClaimClassified := JBool(true)];
    return s;
  }

  /** analyze_fraud: `fraud_analyzed` becomes true. */
  method AnalyzeFraud(s: SinistroState) returns (r: SinistroState)
    modifies s
    ensures r == s
    ensures s.data == old(s.data)[FraudAnalyzed := JBool(true)]
  {
    s.data := s.data[FraudAnalyzed := JBool(true)];
    return s;
  }

  /** generate_protocol: `protocol_generated` becomes "SIN000001". */
  method GenerateProtocol(s: SinistroState) returns (r: SinistroState)
    modifies s
    ensures r == s
    ensures s.data == old(s.data)[ProtocolGenerated := JString(Protocol)]
  {
    s.data := s.data[ProtocolGenerated := JString(Protocol)];
    return s;
  }

  /** send_response: `response_sent` becomes true. */
  method SendResponse(s: SinistroState) returns (r: SinistroState)
    modifies s
    ensures r == s
    ensures s.data == old(s.data)[ResponseSent := JBool(true)]
  {
    s.data := s.data[ResponseSent := JBool(true)];
    return s;
  }

  /**
   * The state after one run of the graph: the node keys are set, the
   * policy flag from the customer data, and nothing else changes.
   */
  function AfterPipeline(data: map<Key, Json>): (r: map<Key, Json>)
    ensures r.Keys == data.Keys + NodeKeys
    ensures r[PolicyValidated] == JBool(HasCustomerData(data))
    ensures r[ClaimClassified] == r[FraudAnalyzed] == r[ResponseSent] == JBool(true)
    ensures r[ProtocolGenerated] == JString("SIN000001")
    ensures forall k :: k in data && k !in NodeKeys ==> r[k] == data[k]
  {
    assert Protocol == "SIN000001";
    data[PolicyValidated := JBool(HasCustomerData(data))]
        [ClaimClassified := JBool(true)]
        [FraudAnalyzed := JBool(true)]
        [ProtocolGenerated := JString(Protocol)]
        [ResponseSent := JBool(true)]
  }

  /** A second run changes nothing: the nodes never touch the customer data they read. */
  lemma PipelineIdempotent(data: map<Key, Json>)
    ensures AfterPipeline(AfterPipeline(data)) == AfterPipeline(data)
  {
    var once := AfterPipeline(data);
    assert HasCustomerData(once) == HasCustomerData(data);
  }

  /** The error key is never set by the pipeline. */
  lemma PipelineLeavesError(data: map<Key, Json>)
    ensures Error in AfterPipeline(data) <==> Error in data
    ensures Error in data ==> AfterPipeline(data)[Error] == data[Error]
  {
    assert Error !in NodeKeys;
  }

  /** The customer record of the router as the dictionary `dict(r._mapping)` builds. */
  function CustomerJson(c: CustomerRouter.CustomerData): Json {
    JObject(map["id" := JNumber(c.id), "name" := JString(c.name), "has_active_policy" := JBool(c.hasActivePolicy)])
  }

  /**
   * validate_policy looks only at whether customer data is present: a
   * customer record from the router passes it even when
   * has_active_policy is false.
   */
  lemma AnyCustomerRecordValidates(data: map<Key, Json>, c: CustomerRouter.CustomerData)
    ensures AfterPipeline(data[CustomerData := CustomerJson(c)])[PolicyValidated] == JBool(true)
  {
    var fields := map["id" := JNumber(c.id), "name" := JString(c.name), "has_active_policy" := JBool(c.hasActivePolicy)];
    assert "id" in fields;
  }

  /**
   * The compiled graph: entry validate_policy, then classify_claim,
   * analyze_fraud, generate_protocol and send_response.
   */
  method RunPipeline(s: SinistroState) returns (r: SinistroState)
    modifies s
    ensures r == s
    ensures s.data == AfterPipeline(old(s.data))
  {
    r := ValidatePolicy(s);
    r := ClassifyClaim(r);
    r := AnalyzeFraud(r);
    r := GenerateProtocol(r);
    r := SendResponse(r);
  }
}
