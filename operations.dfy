/** The catalog of business operations the prototype exposes. */
module Operations {
  import opened Models

  /** A business operation (`label` is a Dafny keyword, hence `displayLabel`). */
  datatype Operation = Operation(code: string, displayLabel: string, description: string)

  /** `ALL_OPERATIONS`, in menu order. */
  const AllOperations: seq<Operation> := [
    Operation("VIEW_ACCOUNT_BALANCE", "View account balance",
              "Display the latest balance for the authenticated client's account."),
    Operation("VIEW_INVESTMENT_PORTFOLIO", "View investment portfolio",
              "Display holdings and allocations for the authenticated client's portfolio."),
    Operation("MODIFY_INVESTMENT_PORTFOLIO", "Modify investment portfolio",
              "Create or update investment allocations for a client."),
    Operation("VIEW_FINANCIAL_ADVISOR_CONTACT", "View Financial Advisor contact info",
              "Display contact information for the assigned Financial Advisor."),
    Operation("VIEW_FINANCIAL_PLANNER_CONTACT", "View Financial Planner contact info",
              "Display contact information for the assigned Financial Planner."),
    Operation("VIEW_MONEY_MARKET_INSTRUMENTS", "View money market instruments",
              "Display available money market instruments."),
    Operation("VIEW_PRIVATE_CONSUMER_INSTRUMENTS", "View private consumer instruments",
              "Display private consumer instruments available to advisors/planners.")
  ]

  /** `OPERATIONS_BY_CODE`: the catalog keyed by code. */
  const OperationsByCode: map<string, Operation> := KeyedByLast(AllOperations, (op: Operation) => op.code)

  /** No two operations of the catalog share a code. */
  lemma CodesDistinct()
    ensures forall i, j | 0 <= i < j < |AllOperations| :: AllOperations[i].code != AllOperations[j].code
  {
    var lengths := seq(|AllOperations|, i requires 0 <= i < |AllOperations| => |AllOperations[i].code|);
    assert lengths == [20, 25, 27, 30, 30, 29, 33];
    assert AllOperations[3].code[15] != AllOperations[4].code[15];
  }

  /** Every operation is found under its own code and nothing else is in
      the dictionary. */
  lemma CatalogByCode()
    ensures OperationsByCode.Keys == set i | 0 <= i < |AllOperations| :: AllOperations[i].code
    ensures forall i | 0 <= i < |AllOperations| :: OperationsByCode[AllOperations[i].code] == AllOperations[i]
  {
    CodesDistinct();
    KeyedByLastDistinct(AllOperations, (op: Operation) => op.code);
  }
}
