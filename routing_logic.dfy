/**
 * The rule-based classifier of logic/routing-logic.py. It differs from the
 * one in the customer router (other keywords, TRIAGEM instead of NEUTRO);
 * both are modelled as written.
 */
module RoutingLogic {
  import opened Wrappers
  import opened Text

  datatype Category = Sinistro | Vendas | Triagem

  function CategoryName(c: Category): (name: string)
    ensures name in {"SINISTRO", "VENDAS", "TRIAGEM"}
  {
    match c
    case Sinistro => "SINISTRO"
    case Vendas => "VENDAS"
    case Triagem => "TRIAGEM"
  }

  const ClaimWords: seq<string> := ["sinistro", "batida"]
  const SalesWords: seq<string> := ["seguro", "cota\U{00E7}\U{00E3}o", "venda"]

  /**
   * classify_intent: SINISTRO when a claim word occurs, else VENDAS when a
   * sales word occurs, else TRIAGEM.
   */
  function ClassifyIntent(message: Option<string>): (c: Category)
    ensures c == Sinistro <==>
              Contains(Normalized(message), "sinistro") || Contains(Normalized(message), "batida")
    ensures c == Vendas <==>
              && !Contains(Normalized(message), "sinistro") && !Contains(Normalized(message), "batida")
              && (|| Contains(Normalized(message), "seguro")
                  || Contains(Normalized(message), "cota\U{00E7}\U{00E3}o")
                  || Contains(Normalized(message), "venda"))
  {
    var m := Normalized(message);
    assert ContainsAny(m, ClaimWords) <==> Contains(m, ClaimWords[0]) || Contains(m, ClaimWords[1]);
    assert ContainsAny(m, SalesWords) <==>
             Contains(m, SalesWords[0]) || Contains(m, SalesWords[1]) || Contains(m, SalesWords[2]);
    if ContainsAny(m, ClaimWords) then Sinistro
    else if ContainsAny(m, SalesWords) then Vendas
    else Triagem
  }

  /** No keyword occurs in the empty text, so a missing or empty message goes to TRIAGEM. */
  lemma NoMessageIsTriagem(message: Option<string>)
    requires message.None? || message == Some("")
    ensures ClassifyIntent(message) == Triagem
  {
    assert Normalized(message) == [];
    assert !ContainsAny([], ClaimWords) && !ContainsAny([], SalesWords);
  }

  /** Upper-casing the message does not change its category. */
  lemma {:induction false} UpperCaseSameCategory(s: string)
    ensures ClassifyIntent(Some(Upper(s))) == ClassifyIntent(Some(s))
  {
    LowerOfUpper(s);
  }

  /** Lower-casing the message does not change its category. */
  lemma {:induction false} LowerCaseSameCategory(s: string)
    ensures ClassifyIntent(Some(Lower(s))) == ClassifyIntent(Some(s))
  {
    LowerIdempotent(s);
  }
}
