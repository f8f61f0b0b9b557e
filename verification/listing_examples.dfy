/**
  The listing scenarios of the product route tests, stated over the query
  model: three products seeded in the order apple, banana, cherry.
*/
module ListingExamples {
  import opened Strconv
  import opened Text
  import opened ProductQuery

  const Apple: Product := Product(1, "apple", 100, 0)
  const Banana: Product := Product(2, "banana", 300, 1)
  const Cherry: Product := Product(3, "cherry", 200, 2)
  const Fruits: seq<Product> := [Apple, Banana, Cherry]

  /** The input the handler builds when only `orderBy` and `sortIn` are given. */
  function Ordering(orderBy: string, sortIn: string): GetProductsInput {
    GetProductsInput(orderBy, sortIn, "", 0, MaxInt64)
  }

  /**
    The input the handler builds when only the keyword is given. The keyword
    scenarios reuse the priced rows: the default bounds 0..MaxInt64 keep every
    price, so only the names decide. They also pin the order, which the route
    test leaves open by sorting the names before comparing.
  */
  function Keyword(name: string): GetProductsInput {
    GetProductsInput("", "", name, 0, MaxInt64)
  }

  /** Every column of the seeded table is a key: names, prices and positions all differ. */
  lemma FruitsKeyedByEveryColumn(f: OrderField)
    ensures ColumnIsKey(f, Fruits)
  {
    assert UniqueNames(Fruits);
    NameIsKey(Fruits);
  }

  /** With no filter, a sorted arrangement of all three products is the listing. */
  lemma {:induction false} UnfilteredListing(orderBy: string, sortIn: string, expected: seq<Product>)
    requires multiset(expected) == multiset(Fruits)
    requires Sorted(OrderFieldOf(orderBy), DirectionOf(sortIn), expected)
    ensures Query(Fruits, Ordering(orderBy, sortIn)) == expected
  {
    var input := Ordering(orderBy, sortIn);
    forall p | p in Fruits
      ensures Keep(input, p)
    {
      EmptyKeywordKeepsAll(input, p);
    }
    assert forall p :: multiset(Fruits)[p] > 0 ==> p in Fruits;
    FruitsKeyedByEveryColumn(OrderFieldOf(orderBy));
    ListingDeterminedByKey(Fruits, input, expected);
  }

  /** Ordering by name: `asc` and the absent direction ascend, `desc` descends. */
  lemma SortByName()
    ensures Query(Fruits, Ordering("name", "asc")) == [Apple, Banana, Cherry]
    ensures Query(Fruits, Ordering("name", "")) == [Apple, Banana, Cherry]
  {
    assert OrderFieldOf("name") == Name && DirectionOf("asc") == DirectionOf("") == Asc;
    assert Sorted(Name, Asc, Fruits);
    UnfilteredListing("name", "asc", Fruits);
    UnfilteredListing("name", "", Fruits);
  }

  lemma SortByNameDesc()
    ensures Query(Fruits, Ordering("name", "desc")) == [Cherry, Banana, Apple]
  {
    var expected := [Cherry, Banana, Apple];
    assert multiset(expected) == multiset(Fruits);
    assert OrderFieldOf("name") == Name && DirectionOf("desc") == Desc;
    assert Sorted(Name, Desc, expected);
    UnfilteredListing("name", "desc", expected);
  }

  /** Ordering by price: `asc` and the absent direction ascend. */
  lemma SortByPrice()
    ensures Query(Fruits, Ordering("price_cents", "asc")) == [Apple, Cherry, Banana]
    ensures Query(Fruits, Ordering("price_cents", "")) == [Apple, Cherry, Banana]
  {
    var expected := [Apple, Cherry, Banana];
    assert multiset(expected) == multiset(Fruits);
    assert OrderFieldOf("price_cents") == PriceCents && DirectionOf("asc") == DirectionOf("") == Asc;
    assert Sorted(PriceCents, Asc, expected);
    UnfilteredListing("price_cents", "asc", expected);
    UnfilteredListing("price_cents", "", expected);
  }

  lemma SortByPriceDesc()
    ensures Query(Fruits, Ordering("price_cents", "desc")) == [Banana, Cherry, Apple]
  {
    var expected := [Banana, Cherry, Apple];
    assert multiset(expected) == multiset(Fruits);
    assert OrderFieldOf("price_cents") == PriceCents && DirectionOf("desc") == Desc;
    assert Sorted(PriceCents, Desc, expected);
    UnfilteredListing("price_cents", "desc", expected);
  }

  /**
    Ordering by creation: `asc` and the absent direction ascend; an `orderBy`
    outside the allow-list, here an injection attempt, orders by creation too.
  */
  lemma SortByCreation()
    ensures Query(Fruits, Ordering("created_at", "asc")) == [Apple, Banana, Cherry]
    ensures Query(Fruits, Ordering("created_at", "")) == [Apple, Banana, Cherry]
    ensures Query(Fruits, Ordering("DROP TABLE products", "")) == [Apple, Banana, Cherry]
  {
    assert OrderFieldOf("created_at") == OrderFieldOf("DROP TABLE products") == CreatedAt;
    assert DirectionOf("asc") == DirectionOf("") == Asc;
    assert Sorted(CreatedAt, Asc, Fruits);
    UnfilteredListing("created_at", "asc", Fruits);
    UnfilteredListing("created_at", "", Fruits);
    UnfilteredListing("DROP TABLE products", "", Fruits);
  }

  lemma SortByCreationDesc()
    ensures Query(Fruits, Ordering("created_at", "desc")) == [Cherry, Banana, Apple]
  {
    var expected := [Cherry, Banana, Apple];
    assert multiset(expected) == multiset(Fruits);
    assert OrderFieldOf("created_at") == CreatedAt && DirectionOf("desc") == Desc;
    assert Sorted(CreatedAt, Desc, expected);
    UnfilteredListing("created_at", "desc", expected);
  }

  /** The WHERE clause over a three-row table keeps each row or drops it, in stored order. */
  lemma FilterOfThree(x: Product, y: Product, z: Product, input: GetProductsInput)
    ensures Filter([x, y, z], input) ==
      (if Keep(input, x) then [x] else [])
      + (if Keep(input, y) then [y] else [])
      + (if Keep(input, z) then [z] else [])
  {
    FilterStep([x, y, z], input);
    assert [x, y, z][1..] == [y, z];
    FilterOfTwo(y, z, input);
  }

  lemma FilterOfTwo(y: Product, z: Product, input: GetProductsInput)
    ensures Filter([y, z], input) == (if Keep(input, y) then [y] else []) + (if Keep(input, z) then [z] else [])
  {
    FilterStep([y, z], input);
    assert [y, z][1..] == [z];
    FilterStep([z], input);
    assert [z][1..] == [];
  }

  /** One row of the WHERE clause: the head is kept or dropped, the rest is filtered. */
  lemma FilterStep(s: seq<Product>, input: GetProductsInput)
    requires |s| > 0
    ensures Filter(s, input) == (if Keep(input, s[0]) then [s[0]] else []) + Filter(s[1..], input)
  {
  }

  /** In the default order the listing is the filtered rows as stored. */
  lemma FilteredInCreationOrder(input: GetProductsInput)
    requires input.orderBy == "" && input.sortIn == ""
    ensures Query(Fruits, input) == Filter(Fruits, input)
  {
    assert OrderFieldOf(input.orderBy) == CreatedAt && DirectionOf(input.sortIn) == Asc;
    assert Sorted(CreatedAt, Asc, Fruits);
    FilterKeepsOrder(CreatedAt, Asc, Fruits, input);
    FilterCounts(Fruits, input);
    FruitsKeyedByEveryColumn(CreatedAt);
    ListingDeterminedByKey(Fruits, input, Filter(Fruits, input));
  }

  /** The keyword filter on the seeded names reduces to substring search. */
  lemma KeywordOnFruits(keyword: string)
    requires NoWildcards(keyword)
    ensures Keep(Keyword(keyword), Apple) <==> IsSubstring(Lower(keyword), "apple")
    ensures Keep(Keyword(keyword), Banana) <==> IsSubstring(Lower(keyword), "banana")
    ensures Keep(Keyword(keyword), Cherry) <==> IsSubstring(Lower(keyword), "cherry")
  {
    assert Lower("apple") == "apple" && Lower("banana") == "banana" && Lower("cherry") == "cherry";
    KeepIsSubstringSearch(Keyword(keyword), Apple);
    KeepIsSubstringSearch(Keyword(keyword), Banana);
    KeepIsSubstringSearch(Keyword(keyword), Cherry);
  }

  /** Which seeded names contain `ap`, `a` and `aa`. */
  lemma ApOnlyInApple()
    ensures IsSubstring("ap", "apple") && !IsSubstring("ap", "banana") && !IsSubstring("ap", "cherry")
  {
    assert OccursAt("ap", "apple", 0);
    forall i | 0 <= i <= 4
      ensures !OccursAt("ap", "banana", i) && !OccursAt("ap", "cherry", i)
    {
      assert "banana"[i..i + 2][0] == "banana"[i] && "banana"[i..i + 2][1] == "banana"[i + 1];
      assert "cherry"[i..i + 2][0] == "cherry"[i];
    }
  }

  lemma ANotInCherry()
    ensures IsSubstring("a", "apple") && IsSubstring("a", "banana") && !IsSubstring("a", "cherry")
  {
    assert OccursAt("a", "apple", 0) && OccursAt("a", "banana", 1);
    forall i | 0 <= i <= 5
      ensures !OccursAt("a", "cherry", i)
    {
      assert "cherry"[i..i + 1][0] == "cherry"[i];
    }
  }

  lemma AaInNoName()
    ensures !IsSubstring("aa", "apple") && !IsSubstring("aa", "banana") && !IsSubstring("aa", "cherry")
  {
    forall i | 0 <= i <= 3
      ensures !OccursAt("aa", "apple", i)
    {
      assert "apple"[i..i + 2][0] == "apple"[i] && "apple"[i..i + 2][1] == "apple"[i + 1];
    }
    forall i | 0 <= i <= 4
      ensures !OccursAt("aa", "banana", i) && !OccursAt("aa", "cherry", i)
    {
      assert "banana"[i..i + 2][0] == "banana"[i] && "banana"[i..i + 2][1] == "banana"[i + 1];
      assert "cherry"[i..i + 2][0] == "cherry"[i];
    }
  }

  /** `ap`, in either case, finds only apple. */
  lemma KeywordAp()
    ensures Query(Fruits, Keyword("ap")) == [Apple]
    ensures Query(Fruits, Keyword("Ap")) == [Apple]
  {
    assert Lower("ap") == Lower("Ap") == "ap";
    ApOnlyInApple();
    KeywordOnFruits("ap");
    KeywordOnFruits("Ap");
    FilterOfThree(Apple, Banana, Cherry, Keyword("ap"));
    FilterOfThree(Apple, Banana, Cherry, Keyword("Ap"));
    FilteredInCreationOrder(Keyword("ap"));
    FilteredInCreationOrder(Keyword("Ap"));
  }

  /** `a` finds apple and banana. */
  lemma KeywordA()
    ensures Query(Fruits, Keyword("a")) == [Apple, Banana]
  {
    assert Lower("a") == "a";
    ANotInCherry();
    KeywordOnFruits("a");
    FilterOfThree(Apple, Banana, Cherry, Keyword("a"));
    FilteredInCreationOrder(Keyword("a"));
  }

  /** `aa` finds nothing. */
  lemma KeywordAa()
    ensures Query(Fruits, Keyword("aa")) == []
  {
    assert Lower("aa") == "aa";
    AaInNoName();
    KeywordOnFruits("aa");
    FilterOfThree(Apple, Banana, Cherry, Keyword("aa"));
    FilteredInCreationOrder(Keyword("aa"));
  }

  /** The empty keyword finds everything. */
  lemma KeywordEmpty()
    ensures Query(Fruits, Keyword("")) == [Apple, Banana, Cherry]
  {
    assert Keyword("") == Ordering("", "");
    assert Sorted(CreatedAt, Asc, Fruits);
    UnfilteredListing("", "", Fruits);
  }

  /** Price bounds 150..250 keep only cherry; bounds 200..100 keep nothing. */
  lemma PriceRangeExamples()
    ensures Query(Fruits, GetProductsInput("", "", "", 150, 250)) == [Cherry]
    ensures Query(Fruits, GetProductsInput("", "", "", 200, 100)) == []
  {
    var input := GetProductsInput("", "", "", 150, 250);
    EmptyKeywordKeepsAll(input, Cherry);
    FilterOfThree(Apple, Banana, Cherry, input);
    FilteredInCreationOrder(input);
    var inverted := GetProductsInput("", "", "", 200, 100);
    InvertedBoundsGiveEmptyListing(Fruits, inverted, Query(Fruits, inverted));
  }
}
