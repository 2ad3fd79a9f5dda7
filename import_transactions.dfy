/** The CSV importer. Parsing skips the header line, trims the four columns of
    every record (title, type, value, category) and keeps a record only when
    its title, type and value are non-empty; the category of every kept record
    is collected, duplicates included. Reconciliation then asks the store for
    the categories whose titles were collected, creates the missing titles once
    each in order of first occurrence, and links every kept record to the
    first category with its title in the list "existing, then new". The CSV
    text is given already split into records of fields. */
module ImportTransactions {
  import opened Results
  import opened Text
  import opened Lists
  import opened Store

  /** One record after trimming; `value` is still text. */
  datatype Row = Row(title: string, kind: string, value: string, category: string)

  predicate HasFourFields(records: seq<seq<string>>)
  {
    forall i :: 0 <= i < |records| ==> |records[i]| >= 4
  }

  /** The records parsing reads: it starts at line 2, so the header never counts. */
  function DataRows(lines: seq<seq<string>>): seq<seq<string>>
  {
    if lines == [] then [] else lines[1..]
  }

  /** `row.map(s => s.trim())` destructured into the four named columns. */
  function Fields(record: seq<string>): Row
    requires |record| >= 4
  {
    Row(Trim(record[0]), Trim(record[1]), Trim(record[2]), Trim(record[3]))
  }

  /** `!title || !type || !value` rejects, and among strings only "" is falsy. */
  predicate Kept(row: Row)
  {
    row.title != "" && row.kind != "" && row.value != ""
  }

  /** The rows the parse callback pushes, in parse order. */
  function KeptRows(records: seq<seq<string>>): seq<Row>
    requires HasFourFields(records)
  {
    if records == [] then []
    else
      var row := Fields(records[|records| - 1]);
      KeptRows(records[..|records| - 1]) + (if Kept(row) then [row] else [])
  }

  /** The `categories` list: one entry per kept row. */
  function CategoryColumn(rows: seq<Row>): seq<string>
  {
    seq(|rows|, i requires 0 <= i < |rows| => rows[i].category)
  }

  /** Parsing one more record adds its row when the record is kept. */
  lemma KeptRowsStep(records: seq<seq<string>>, j: nat)
    requires HasFourFields(records) && j < |records|
    ensures HasFourFields(records[..j + 1]) && HasFourFields(records[..j])
    ensures KeptRows(records[..j + 1]) == KeptRows(records[..j]) +
      (if Kept(Fields(records[j])) then [Fields(records[j])] else [])
  {
    assert records[..j + 1][..j] == records[..j];
    assert records[..j + 1][j] == records[j];
  }

  /** The parse callback run over every record after the header: it pushes the
      trimmed row and its category for each record it keeps. */
  method ParseRows(lines: seq<seq<string>>) returns (transactions: seq<Row>, categories: seq<string>)
    requires HasFourFields(DataRows(lines))
    ensures transactions == KeptRows(DataRows(lines))
    ensures |categories| == |transactions|
    ensures forall i :: 0 <= i < |categories| ==> categories[i] == transactions[i].category
  {
    var records := DataRows(lines);
    transactions, categories := [], [];
    for j := 0 to |records|
      invariant transactions == KeptRows(records[..j])
      invariant |categories| == |transactions|
      invariant forall i :: 0 <= i < |categories| ==> categories[i] == transactions[i].category
    {
      KeptRowsStep(records, j);
      var row := Fields(records[j]);
      if !Kept(row) {
        continue;
      }
      transactions := transactions + [row];
      categories := categories + [row.category];
    }
    assert records[..|records|] == records;
  }

  /** Parsing distributes over concatenation: each record is judged on its own
      and the kept rows keep their order. */
  lemma {:induction false} KeptRowsAppend(a: seq<seq<string>>, b: seq<seq<string>>)
    requires HasFourFields(a) && HasFourFields(b)
    ensures HasFourFields(a + b)
    ensures KeptRows(a + b) == KeptRows(a) + KeptRows(b)
  {
    if b != [] {
      var b' := b[..|b| - 1];
      assert (a + b)[..|a + b| - 1] == a + b';
      assert (a + b)[|a + b| - 1] == b[|b| - 1];
      KeptRowsAppend(a, b');
    } else {
      assert a + b == a;
    }
  }

  /** A record is kept exactly when none of its first three fields is blank. */
  lemma KeptIff(record: seq<string>)
    requires |record| >= 4
    ensures Kept(Fields(record)) <==>
      !AllSpace(record[0]) && !AllSpace(record[1]) && !AllSpace(record[2])
  {
    TrimEmptyIff(record[0]);
    TrimEmptyIff(record[1]);
    TrimEmptyIff(record[2]);
  }

  /** A row is among the kept rows exactly when some record that passes the
      test trims to it. */
  lemma {:induction false} KeptRowsMembership(records: seq<seq<string>>, row: Row)
    requires HasFourFields(records)
    ensures row in KeptRows(records) <==>
      exists i :: 0 <= i < |records| && Kept(Fields(records[i])) && Fields(records[i]) == row
  {
    if records != [] {
      var n := |records| - 1;
      var init := records[..n];
      var last := Fields(records[n]);
      var tail := if Kept(last) then [last] else [];
      assert KeptRows(records) == KeptRows(init) + tail;
      KeptRowsMembership(init, row);
      if row in KeptRows(records) {
        if row in KeptRows(init) {
          var i :| 0 <= i < |init| && Kept(Fields(init[i])) && Fields(init[i]) == row;
          assert records[i] == init[i];
        } else {
          assert row in tail;
          assert Kept(Fields(records[n])) && Fields(records[n]) == row;
        }
      } else {
        forall i | 0 <= i < |records| && Kept(Fields(records[i]))
          ensures Fields(records[i]) != row
        {
          if i < n {
            assert records[i] == init[i];
          } else {
            assert !(row in tail);
          }
        }
      }
    }
  }

  /** A zero amount is the non-empty text "0", so it never rejects its record:
      the record is kept exactly when its title and type are not blank. */
  lemma ZeroValueKept(record: seq<string>)
    requires |record| >= 4 && record[2] == "0"
    ensures Kept(Fields(record)) <==> !AllSpace(record[0]) && !AllSpace(record[1])
  {
    KeptIff(record);
    assert !IsSpace(record[2][0]);
  }

  /** The header line never becomes a transaction, whatever it holds. */
  lemma HeaderNeverImported(header: seq<string>, records: seq<seq<string>>)
    requires HasFourFields(records)
    ensures KeptRows(DataRows([header] + records)) == KeptRows(records)
  {
    assert ([header] + records)[1..] == records;
  }

  /** `find({ where: { title: In(titles) } })`: the stored categories whose title
      is one of `titles`, in store order. */
  function ExistingCategories(store: seq<Category>, titles: seq<string>): (r: seq<Category>)
    ensures forall c :: c in r <==> c in store && c.title in titles
  {
    if store == [] then []
    else (if store[0].title in titles then [store[0]] else []) + ExistingCategories(store[1..], titles)
  }

  /** `categoriesToCreate`: the collected titles that no existing category has,
      each once. */
  function CategoriesToCreate(categories: seq<string>, existingTitles: seq<string>): (r: seq<string>)
    ensures NoDuplicates(r)
    ensures forall t :: t in r <==> t in categories && t !in existingTitles
  {
    FirstOccurrences(Without(categories, existingTitles))
  }

  /** The titles to create appear in order of their first occurrence among the
      collected titles. */
  lemma CategoriesToCreateInFirstOccurrenceOrder(categories: seq<string>, existingTitles: seq<string>)
    ensures var r := CategoriesToCreate(categories, existingTitles);
      forall i, j :: 0 <= i < j < |r| ==> IndexOf(categories, r[i]) < IndexOf(categories, r[j])
  {
    var w := Without(categories, existingTitles);
    var r := CategoriesToCreate(categories, existingTitles);
    forall i, j | 0 <= i < j < |r|
      ensures IndexOf(categories, r[i]) < IndexOf(categories, r[j])
    {
      var x, y := r[i], r[j];
      assert IndexOf(w, x) < IndexOf(w, y);
      if IndexOf(categories, y) < IndexOf(categories, x) {
        WithoutKeepsOrder(categories, existingTitles, y, x);
      }
    }
  }

  /** The existing categories the import asks for, given the kept rows. */
  function Existing(store: seq<Category>, rows: seq<Row>): seq<Category>
  {
    ExistingCategories(store, CategoryColumn(rows))
  }

  /** The titles the import creates, given the store and the kept rows. */
  function ToCreate(store: seq<Category>, rows: seq<Row>): seq<string>
  {
    CategoriesToCreate(CategoryColumn(rows), Titles(Existing(store, rows)))
  }

  /** `allCategories`: the existing categories followed by the new ones. */
  function AllCategories(store: seq<Category>, rows: seq<Row>): seq<Category>
  {
    Existing(store, rows) + Numbered(|store|, ToCreate(store, rows))
  }

  /** No title the import creates is already stored, and each comes from a
      kept row. */
  lemma ToCreateIsNew(store: seq<Category>, rows: seq<Row>)
    ensures forall t :: t in ToCreate(store, rows) ==> t !in Titles(store)
    ensures forall t :: t in ToCreate(store, rows) ==> exists i :: 0 <= i < |rows| && rows[i].category == t
  {
    var cats := CategoryColumn(rows);
    var existing := Existing(store, rows);
    forall t | t in ToCreate(store, rows) ensures t !in Titles(store) {
      if t in Titles(store) {
        var k :| 0 <= k < |store| && Titles(store)[k] == t;
        TitleOf(existing, store[k]);
      }
    }
    forall t | t in ToCreate(store, rows)
      ensures exists i :: 0 <= i < |rows| && rows[i].category == t
    {
      var i :| 0 <= i < |cats| && cats[i] == t;
      assert rows[i].category == t;
    }
  }

  /** Every kept row's category is stored already or about to be created, so
      the lookup in `allCategories` always finds a category with that title. */
  lemma EveryRowResolves(store: seq<Category>, rows: seq<Row>)
    ensures forall i :: 0 <= i < |rows| ==> rows[i].category in Titles(AllCategories(store, rows))
  {
    var cats := CategoryColumn(rows);
    var existing := Existing(store, rows);
    var toCreate := ToCreate(store, rows);
    TitlesAppend(existing, Numbered(|store|, toCreate));
    NumberedTitles(|store|, toCreate);
    forall i | 0 <= i < |rows| ensures rows[i].category in Titles(existing) + toCreate {
      assert cats[i] == rows[i].category;
    }
  }

  /** The transactions built from the kept rows: each takes its row's title,
      value and type and the first category with its row's title. */
  function Link(rows: seq<Row>, all: seq<Category>): seq<Transaction>
    requires forall i :: 0 <= i < |rows| ==> rows[i].category in Titles(all)
  {
    seq(|rows|, i requires 0 <= i < |rows| =>
      Transaction(rows[i].title, Raw(rows[i].value), rows[i].kind,
                  FindByTitle(all, rows[i].category).value))
  }

  function Imported(store: seq<Category>, rows: seq<Row>): seq<Transaction>
  {
    EveryRowResolves(store, rows);
    Link(rows, AllCategories(store, rows))
  }

  /** One transaction per kept row, in order, with the row's fields and a
      category titled as the row says; it is the first existing category of that
      title, or the new one when none exists. */
  lemma ImportedMatchesRows(store: seq<Category>, rows: seq<Row>)
    ensures var ts := Imported(store, rows);
      && |ts| == |rows|
      && forall i :: 0 <= i < |rows| ==>
        && ts[i].title == rows[i].title && ts[i].value == Raw(rows[i].value)
        && ts[i].kind == rows[i].kind && ts[i].category.title == rows[i].category
        && ts[i].category in AllCategories(store, rows)
        && Some(ts[i].category) ==
             (var found := FindByTitle(Existing(store, rows), rows[i].category);
              if found.Some? then found
              else FindByTitle(Numbered(|store|, ToCreate(store, rows)), rows[i].category))
  {
    var ts := Imported(store, rows);
    var all := AllCategories(store, rows);
    EveryRowResolves(store, rows);
    forall i | 0 <= i < |rows|
      ensures ts[i].category == FindByTitle(all, rows[i].category).value
      ensures Some(ts[i].category) ==
             (var found := FindByTitle(Existing(store, rows), rows[i].category);
              if found.Some? then found
              else FindByTitle(Numbered(|store|, ToCreate(store, rows)), rows[i].category))
    {
      assert ts[i] == Link(rows, all)[i];
      FindByTitleAppend(Existing(store, rows), Numbered(|store|, ToCreate(store, rows)), rows[i].category);
    }
  }

  /** Two kept rows naming the same category title are linked to the same
      category. */
  lemma SameTitleSameLink(store: seq<Category>, rows: seq<Row>, i: nat, j: nat)
    requires i < |rows| && j < |rows| && rows[i].category == rows[j].category
    ensures Imported(store, rows)[i].category == Imported(store, rows)[j].category
  {
    ImportedMatchesRows(store, rows);
  }

  /** After an import, every title its rows name is stored, so importing the
      same rows again creates no category. */
  lemma ReimportCreatesNoCategories(store: seq<Category>, rows: seq<Row>)
    ensures ToCreate(store + Numbered(|store|, ToCreate(store, rows)), rows) == []
  {
    var cats := CategoryColumn(rows);
    var created := Numbered(|store|, ToCreate(store, rows));
    var store' := store + created;
    var existing' := Existing(store', rows);
    EveryRowResolves(store, rows);
    forall t | t in cats ensures t in Titles(existing') {
      var i :| 0 <= i < |cats| && cats[i] == t;
      assert rows[i].category == t;
      var c := FindByTitle(AllCategories(store, rows), t).value;
      assert c in store';
      TitleOf(existing', c);
    }
  }

  method Execute(ledger: Ledger, lines: seq<seq<string>>) returns (created: seq<Transaction>)
    requires ledger.Valid()
    requires HasFourFields(DataRows(lines))
    modifies ledger
    ensures ledger.Valid()
    ensures var rows := KeptRows(DataRows(lines));
      && ledger.categories == old(ledger.categories) + Numbered(|old(ledger.categories)|, ToCreate(old(ledger.categories), rows))
      && created == Imported(old(ledger.categories), rows)
      && ledger.transactions == old(ledger.transactions) + created
    ensures var rows := KeptRows(DataRows(lines));
      && |created| == |rows|
      && forall i :: 0 <= i < |rows| ==>
        && created[i].title == rows[i].title && created[i].value == Raw(rows[i].value)
        && created[i].kind == rows[i].kind && created[i].category.title == rows[i].category
    ensures UniqueTitles(old(ledger.categories)) ==> UniqueTitles(ledger.categories)
  {
    var transactions, categories := ParseRows(lines);
    assert categories == CategoryColumn(transactions);

    var existingCategories := ExistingCategories(ledger.categories, categories);
    var existingCategoryTitles := Titles(existingCategories);
    var categoriesToCreate := CategoriesToCreate(categories, existingCategoryTitles);

    var newCategories := ledger.SaveCategories(categoriesToCreate);
    var allCategories := existingCategories + newCategories;

    EveryRowResolves(old(ledger.categories), transactions);
    var newTransactions := Link(transactions, allCategories);
    forall t | t in newTransactions ensures t.category in ledger.categories {
      var i :| 0 <= i < |newTransactions| && newTransactions[i] == t;
      assert FindByTitle(allCategories, transactions[i].category).value in allCategories;
    }
    ledger.SaveTransactions(newTransactions);

    if UniqueTitles(old(ledger.categories)) {
      ToCreateIsNew(old(ledger.categories), transactions);
      AppendKeepsTitlesUnique(old(ledger.categories), newCategories);
    }
    created := newTransactions;
    ImportedMatchesRows(old(ledger.categories), transactions);
  }

  /** Querying a concatenated store concatenates the answers. */
  lemma {:induction false} ExistingCategoriesAppend(a: seq<Category>, b: seq<Category>, titles: seq<string>)
    ensures ExistingCategories(a + b, titles) == ExistingCategories(a, titles) + ExistingCategories(b, titles)
  {
    if a != [] {
      assert (a + b)[0] == a[0];
      assert (a + b)[1..] == a[1..] + b;
      ExistingCategoriesAppend(a[1..], b, titles);
    } else {
      assert a + b == b;
    }
  }

  /** A query naming every title of a store returns the whole store. */
  lemma {:induction false} ExistingCategoriesAll(cs: seq<Category>, titles: seq<string>)
    requires forall k :: 0 <= k < |cs| ==> cs[k].title in titles
    ensures ExistingCategories(cs, titles) == cs
  {
    if cs != [] {
      ExistingCategoriesAll(cs[1..], titles);
      assert cs[0].title in titles;
      assert [cs[0]] + cs[1..] == cs;
    }
  }

  /** After an import, the same rows see the same `allCategories`: the old
      matches followed by the categories the first import created. So a second
      import links every row exactly as the first did. */
  lemma ReimportLinksSame(store: seq<Category>, rows: seq<Row>)
    ensures var store' := store + Numbered(|store|, ToCreate(store, rows));
      && AllCategories(store', rows) == AllCategories(store, rows)
      && Imported(store', rows) == Imported(store, rows)
  {
    var cats := CategoryColumn(rows);
    var toCreate := ToCreate(store, rows);
    var created := Numbered(|store|, toCreate);
    var store' := store + created;
    ReimportCreatesNoCategories(store, rows);
    ExistingCategoriesAppend(store, created, cats);
    forall k | 0 <= k < |created| ensures created[k].title in cats {
      assert created[k].title == toCreate[k];
    }
    ExistingCategoriesAll(created, cats);
    assert Existing(store', rows) == Existing(store, rows) + created;
    assert Numbered(|store'|, ToCreate(store', rows)) == [];
    assert AllCategories(store', rows) == Existing(store', rows) + [];
  }

  /** Importing is not idempotent: a second import of the same lines creates no
      category and stores every transaction of the first import again. */
  method ImportTwice(ledger: Ledger, lines: seq<seq<string>>) returns (first: seq<Transaction>, second: seq<Transaction>)
    requires ledger.Valid()
    requires HasFourFields(DataRows(lines))
    modifies ledger
    ensures ledger.Valid()
    ensures var rows := KeptRows(DataRows(lines));
      ledger.categories == old(ledger.categories) + Numbered(|old(ledger.categories)|, ToCreate(old(ledger.categories), rows))
    ensures ledger.transactions == old(ledger.transactions) + first + second
    ensures |first| == |KeptRows(DataRows(lines))|
    ensures second == first
  {
    ghost var store := ledger.categories;
    ghost var rows := KeptRows(DataRows(lines));
    first := Execute(ledger, lines);
    assert first == Imported(store, rows);
    ghost var store' := ledger.categories;
    assert store' == store + Numbered(|store|, ToCreate(store, rows));
    ReimportLinksSame(store, rows);
    second := Execute(ledger, lines);
    assert second == Imported(store', rows);
    assert ledger.categories == store' + Numbered(|store'|, ToCreate(store', rows));
    ReimportCreatesNoCategories(store, rows);
  }

  /** Two data lines naming categories that are not stored yet, after a header. */
  const ExampleLines: seq<seq<string>> := [
    ["title", "type", "value", "category"],
    ["Salary", "income", "5000", "Job"],
    ["Rent", "outcome", "1200", "House"]]

  /** The fields of a record that has no whitespace around them come through
      parsing unchanged. */
  lemma FieldsOfTrimmedRecord(record: seq<string>)
    requires |record| >= 4
    requires forall k :: 0 <= k < 4 ==> record[k] != [] && !IsSpace(record[k][0]) && !IsSpace(record[k][|record[k]| - 1])
    ensures Fields(record) == Row(record[0], record[1], record[2], record[3])
  {
    TrimFixedIff(record[0]);
    TrimFixedIff(record[1]);
    TrimFixedIff(record[2]);
    TrimFixedIff(record[3]);
  }

  /** Both data lines are kept, trimmed and in order; the header is not. */
  lemma ExampleRowsParsed()
    ensures HasFourFields(DataRows(ExampleLines))
    ensures KeptRows(DataRows(ExampleLines)) ==
      [Row("Salary", "income", "5000", "Job"), Row("Rent", "outcome", "1200", "House")]
  {
    var records := DataRows(ExampleLines);
    assert records == [ExampleLines[1], ExampleLines[2]];
    FieldsOfTrimmedRecord(ExampleLines[1]);
    FieldsOfTrimmedRecord(ExampleLines[2]);
    assert records[..1] == [ExampleLines[1]] && records[..1][..0] == [];
    assert records[..|records| - 1] == records[..1];
    assert KeptRows(records[..1]) == [Row("Salary", "income", "5000", "Job")];
    assert KeptRows(records) == KeptRows(records[..1]) + [Row("Rent", "outcome", "1200", "House")];
  }

  /** Importing them into an empty store creates both titles, in order. */
  lemma ExampleCategoriesCreated()
    ensures ToCreate([], [Row("Salary", "income", "5000", "Job"), Row("Rent", "outcome", "1200", "House")])
      == ["Job", "House"]
  {
    var rows := [Row("Salary", "income", "5000", "Job"), Row("Rent", "outcome", "1200", "House")];
    var cats := CategoryColumn(rows);
    assert cats == ["Job", "House"];
    assert Existing([], rows) == [];
    var w := Without(cats, []);
    assert w == cats;
    assert IndexOf(w, "Job") == 0 && IndexOf(w, "House") == 1;
    assert w[..1] == ["Job"];
    assert FirstOccurrencesUpTo(w, 1) == ["Job"];
  }
}
