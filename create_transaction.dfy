/** The service that records one transaction: it refuses an outcome larger than
    the current balance, finds the category by title or creates it, and then
    stores the transaction. The balance `total` is an input, because the
    repository that aggregates it is not part of this model. */
module CreateTransaction {
  import opened Results
  import opened Lists
  import opened Store

  /** An application error carrying an HTTP status code. */
  datatype AppError = AppError(message: string, statusCode: int)

  const InsufficientBalance: AppError := AppError("Insufficient balance.", 400)

  /** The overdraft guard: only an outcome strictly larger than the total fails. */
  predicate Overdraws(kind: string, value: int, total: int)
  {
    kind == "outcome" && value > total
  }

  /** Any kind other than "outcome" passes the guard, whatever the total. */
  lemma IncomeNeverOverdraws(kind: string, value: int, total: int)
    requires kind != "outcome"
    ensures !Overdraws(kind, value, total)
  {
  }

  /** The comparison is strict: spending the whole balance is allowed. */
  lemma OutcomeUpToTotalAllowed(value: int, total: int)
    requires value <= total
    ensures !Overdraws("outcome", value, total)
  {
  }

  method Execute(ledger: Ledger, title: string, value: int, kind: string, category: string, total: int)
    returns (r: Result<Transaction, AppError>)
    requires ledger.Valid()
    modifies ledger
    ensures ledger.Valid()
    ensures r.Failure? <==> Overdraws(kind, value, total)
    ensures r.Failure? ==>
      && r.error == InsufficientBalance && r.error.statusCode == 400
      && ledger.categories == old(ledger.categories)
      && ledger.transactions == old(ledger.transactions)
    ensures r.Success? ==>
      && r.value.title == title && r.value.value == Number(value) && r.value.kind == kind
      && r.value.category.title == category
      && ledger.transactions == old(ledger.transactions) + [r.value]
      && FindByTitle(ledger.categories, category) == Some(r.value.category)
    ensures r.Success? && category in Titles(old(ledger.categories)) ==>
      && ledger.categories == old(ledger.categories)
      && Some(r.value.category) == FindByTitle(old(ledger.categories), category)
    ensures r.Success? && category !in Titles(old(ledger.categories)) ==>
      && r.value.category == Category(|old(ledger.categories)|, category)
      && ledger.categories == old(ledger.categories) + [r.value.category]
    ensures UniqueTitles(old(ledger.categories)) ==> UniqueTitles(ledger.categories)
  {
    if kind == "outcome" && value > total {
      return Failure(InsufficientBalance);
    }

    var transactionCategory := FindByTitle(ledger.categories, category);
    var resolved: Category;
    if transactionCategory.None? {
      var saved := ledger.SaveCategories([category]);
      resolved := saved[0];
      assert Titles(saved) == [category];
      FindByTitleAppend(old(ledger.categories), saved, category);
      if UniqueTitles(old(ledger.categories)) {
        AppendKeepsTitlesUnique(old(ledger.categories), saved);
      }
    } else {
      resolved := transactionCategory.value;
    }

    var transaction := Transaction(title, Number(value), kind, resolved);
    ledger.SaveTransactions([transaction]);
    r := Success(transaction);
  }

  /** Two successful calls naming the same category title that is not stored
      yet create that category once, and both transactions refer to it. */
  method CreateTwiceWithNewCategory(ledger: Ledger, category: string,
                                    title1: string, value1: int, kind1: string, total1: int,
                                    title2: string, value2: int, kind2: string, total2: int)
    returns (r1: Result<Transaction, AppError>, r2: Result<Transaction, AppError>)
    requires ledger.Valid()
    requires category !in Titles(ledger.categories)
    requires !Overdraws(kind1, value1, total1) && !Overdraws(kind2, value2, total2)
    modifies ledger
    ensures r1.Success? && r2.Success?
    ensures r1.value.category == r2.value.category == Category(|old(ledger.categories)|, category)
    ensures ledger.categories == old(ledger.categories) + [r1.value.category]
    ensures ledger.transactions == old(ledger.transactions) + [r1.value, r2.value]
  {
    r1 := Execute(ledger, title1, value1, kind1, category, total1);
    assert Titles(ledger.categories) == Titles(old(ledger.categories)) + [category];
    r2 := Execute(ledger, title2, value2, kind2, category, total2);
    FindByTitleAppend(old(ledger.categories), [r1.value.category], category);
  }
}
