/** The in-memory stand-in for the two database repositories the services use:
    the category rows and the transaction rows, each in insertion order. */
module Store {
  import opened Results
  import opened Lists

  /** A category row. `id` is the row's identity; the ledger gives each new row
      its position as id. */
  datatype Category = Category(id: nat, title: string)

  /** What a transaction's value column receives: the creation service passes a
      number, the importer passes the trimmed CSV text. */
  datatype Value = Number(amount: int) | Raw(text: string)

  /** A transaction row; `kind` is the `type` column ("income" or "outcome"). */
  datatype Transaction = Transaction(title: string, value: Value, kind: string, category: Category)

  function Titles(cs: seq<Category>): seq<string>
  {
    seq(|cs|, i requires 0 <= i < |cs| => cs[i].title)
  }

  lemma TitlesAppend(a: seq<Category>, b: seq<Category>)
    ensures Titles(a + b) == Titles(a) + Titles(b)
  {
  }

  lemma TitleOf(cs: seq<Category>, c: Category)
    requires c in cs
    ensures c.title in Titles(cs)
  {
    var k :| 0 <= k < |cs| && cs[k] == c;
    assert Titles(cs)[k] == c.title;
  }

  /** No two stored categories share a title (a convention the data layer does
      not enforce). */
  predicate UniqueTitles(cs: seq<Category>)
  {
    NoDuplicates(Titles(cs))
  }

  predicate IdsArePositions(cs: seq<Category>)
  {
    forall i :: 0 <= i < |cs| ==> cs[i].id == i
  }

  /** The first category whose title is exactly `title`, as `find` with a title
      test and `findOne({ where: { title } })` return it. */
  function FindByTitle(cs: seq<Category>, title: string): (r: Option<Category>)
    ensures r.Some? ==> r.value in cs && r.value.title == title
    ensures r.None? <==> title !in Titles(cs)
    ensures r.Some? ==> IndexOf(Titles(cs), title) >= 0 && r.value == cs[IndexOf(Titles(cs), title)]
  {
    if cs == [] then None
    else if cs[0].title == title then
      assert Titles(cs)[0] == title;
      Some(cs[0])
    else
      assert Titles(cs) == [cs[0].title] + Titles(cs[1..]);
      FindByTitle(cs[1..], title)
  }

  /** Searching a concatenation finds the first list's match when there is one,
      and otherwise the second list's. */
  lemma {:induction false} FindByTitleAppend(a: seq<Category>, b: seq<Category>, title: string)
    ensures FindByTitle(a + b, title) ==
      if FindByTitle(a, title).Some? then FindByTitle(a, title) else FindByTitle(b, title)
  {
    if a != [] {
      assert (a + b)[0] == a[0];
      assert (a + b)[1..] == a[1..] + b;
      FindByTitleAppend(a[1..], b, title);
    } else {
      assert a + b == b;
    }
  }

  /** When titles are unique, the lookup by a stored category's title returns
      that very category. */
  lemma {:induction false} FindByTitleUnique(cs: seq<Category>, i: nat)
    requires UniqueTitles(cs) && i < |cs|
    ensures FindByTitle(cs, cs[i].title) == Some(cs[i])
  {
    if i > 0 {
      assert Titles(cs)[0] != Titles(cs)[i];
      assert UniqueTitles(cs[1..]) by {
        assert Titles(cs[1..]) == Titles(cs)[1..];
      }
      FindByTitleUnique(cs[1..], i - 1);
    }
  }

  /** In a store with unique titles, a title identifies a category. */
  lemma SameTitleSameCategory(cs: seq<Category>, c1: Category, c2: Category)
    requires UniqueTitles(cs) && c1 in cs && c2 in cs && c1.title == c2.title
    ensures c1 == c2
  {
    var i :| 0 <= i < |cs| && cs[i] == c1;
    var j :| 0 <= j < |cs| && cs[j] == c2;
    assert Titles(cs)[i] == Titles(cs)[j];
  }

  /** The rows `create` followed by `save` produce for `titles` when `base` rows
      are already stored: one per title, in order, numbered from `base`. */
  function Numbered(base: nat, titles: seq<string>): seq<Category>
  {
    seq(|titles|, i requires 0 <= i < |titles| => Category(base + i, titles[i]))
  }

  lemma NumberedTitles(base: nat, titles: seq<string>)
    ensures Titles(Numbered(base, titles)) == titles
  {
  }

  /** Appending categories whose titles are distinct and new keeps titles unique. */
  lemma AppendKeepsTitlesUnique(a: seq<Category>, b: seq<Category>)
    requires UniqueTitles(a) && UniqueTitles(b)
    requires forall t :: t in Titles(b) ==> t !in Titles(a)
    ensures UniqueTitles(a + b)
  {
    var ta, tb, t := Titles(a), Titles(b), Titles(a + b);
    assert t == ta + tb;
    forall i, j | 0 <= i < j < |t| ensures t[i] != t[j] {
      if j < |ta| {
        assert t[i] == ta[i] && t[j] == ta[j];
      } else if i < |ta| {
        assert t[j] == tb[j - |ta|] && t[i] == ta[i];
        assert tb[j - |ta|] in tb;
      } else {
        assert t[i] == tb[i - |ta|] && t[j] == tb[j - |ta|];
      }
    }
  }

  class Ledger {
    var categories: seq<Category>
    var transactions: seq<Transaction>

    /** Every category's id is its position, and every transaction refers to a
        stored category. */
    ghost predicate Valid()
      reads this
    {
      && IdsArePositions(categories)
      && forall t :: t in transactions ==> t.category in categories
    }

    constructor ()
      ensures Valid() && categories == [] && transactions == []
    {
      categories := [];
      transactions := [];
    }

    /** `create` and `save` of new category rows, one per title. */
    method SaveCategories(titles: seq<string>) returns (saved: seq<Category>)
      requires Valid()
      modifies this
      ensures Valid()
      ensures saved == Numbered(|old(categories)|, titles) && Titles(saved) == titles
      ensures categories == old(categories) + saved
      ensures transactions == old(transactions)
    {
      saved := Numbered(|categories|, titles);
      categories := categories + saved;
    }

    /** `create` and `save` of transaction rows; each must refer to a stored
        category. */
    method SaveTransactions(ts: seq<Transaction>)
      requires Valid()
      requires forall t :: t in ts ==> t.category in categories
      modifies this
      ensures Valid()
      ensures transactions == old(transactions) + ts
      ensures categories == old(categories)
    {
      transactions := transactions + ts;
    }
  }
}
