/**
  What `Repository.GetProducts` asks the database for: the products whose
  lower-cased name is LIKE the lower-cased keyword wrapped in `%`, whose price
  lies in the inclusive bounds, ordered by an allow-listed column in an
  allow-listed direction. The query is a pure function of the products table
  and the input; the table itself is only read.
*/
module ProductQuery {
  import opened Strconv
  import opened Text

  /** A row of the products table; `createdAt` is the row's insertion position. */
  datatype Product = Product(id: nat, name: string, priceCents: Int64, createdAt: nat)

  /** `GetProductsInput`: the listing parameters, price bounds already parsed. */
  datatype GetProductsInput = GetProductsInput(
    orderBy: string,
    sortIn: string,
    name: string,
    minPrice: Int64,
    maxPrice: Int64)

  /** The sort columns the query may use; no other text reaches the ORDER BY. */
  datatype OrderField = Name | PriceCents | CreatedAt

  datatype Direction = Asc | Desc

  /** The allow-list: `name` and `price_cents` select themselves, anything else `created_at`. */
  function OrderFieldOf(orderBy: string): (f: OrderField)
    ensures f == Name <==> orderBy == "name"
    ensures f == PriceCents <==> orderBy == "price_cents"
    ensures f == CreatedAt <==> orderBy != "name" && orderBy != "price_cents"
  {
    match orderBy
    case "name" => Name
    case "price_cents" => PriceCents
    case _ => CreatedAt
  }

  /** Only the exact text `desc` sorts descending; `""`, `DESC` and the rest sort ascending. */
  function DirectionOf(sortIn: string): (d: Direction)
    ensures d == Desc <==> sortIn == "desc"
    ensures d == Asc <==> sortIn != "desc"
  {
    if sortIn == "desc" then Desc else Asc
  }

  /** The WHERE clause: name pattern, then the two inclusive price bounds. */
  predicate Keep(input: GetProductsInput, p: Product) {
    && Like(Lower(p.name), "%" + Lower(input.name) + "%")
    && input.minPrice <= p.priceCents
    && p.priceCents <= input.maxPrice
  }

  /** The rows of `products` the WHERE clause keeps, each as often as it occurs. */
  function Filter(products: seq<Product>, input: GetProductsInput): seq<Product> {
    if |products| == 0 then []
    else (if Keep(input, products[0]) then [products[0]] else []) + Filter(products[1..], input)
  }

  /** The filter keeps every kept row as often as it is stored, and nothing else. */
  lemma {:induction false} FilterCounts(products: seq<Product>, input: GetProductsInput)
    ensures forall p :: multiset(Filter(products, input))[p] == if Keep(input, p) then multiset(products)[p] else 0
  {
    if |products| > 0 {
      assert products == [products[0]] + products[1..];
      FilterCounts(products[1..], input);
    }
  }

  /** `a` may come before `b` in ascending order of column `f`. */
  predicate KeyLeq(f: OrderField, a: Product, b: Product) {
    match f
    case Name => LexLeq(a.name, b.name)
    case PriceCents => a.priceCents <= b.priceCents
    case CreatedAt => a.createdAt <= b.createdAt
  }

  /** `a` may come before `b` when ordering by `f` in direction `d`. */
  predicate InOrder(f: OrderField, d: Direction, a: Product, b: Product) {
    match d
    case Asc => KeyLeq(f, a, b)
    case Desc => KeyLeq(f, b, a)
  }

  lemma InOrderTotal(f: OrderField, d: Direction, a: Product, b: Product)
    ensures InOrder(f, d, a, b) || InOrder(f, d, b, a)
  {
    if f == Name {
      LexTotal(a.name, b.name);
    }
  }

  lemma InOrderTransitive(f: OrderField, d: Direction, a: Product, b: Product, c: Product)
    requires InOrder(f, d, a, b) && InOrder(f, d, b, c)
    ensures InOrder(f, d, a, c)
  {
    if f == Name {
      if d == Asc {
        LexTransitive(a.name, b.name, c.name);
      } else {
        LexTransitive(c.name, b.name, a.name);
      }
    }
  }

  predicate Sorted(f: OrderField, d: Direction, s: seq<Product>) {
    forall i, j :: 0 <= i < j < |s| ==> InOrder(f, d, s[i], s[j])
  }

  lemma HeadBound(f: OrderField, d: Direction, x: Product, s: seq<Product>)
    requires Sorted(f, d, s) && |s| > 0 && InOrder(f, d, x, s[0])
    ensures Sorted(f, d, [x] + s)
  {
    var r := [x] + s;
    forall i, j | 0 <= i < j < |r|
      ensures InOrder(f, d, r[i], r[j])
    {
      assert r[j] == s[j - 1];
      if i == 0 {
        if j > 1 {
          InOrderTransitive(f, d, x, s[0], s[j - 1]);
        }
      } else {
        assert r[i] == s[i - 1];
      }
    }
  }

  lemma InsertStep(f: OrderField, d: Direction, x: Product, s: seq<Product>, rest: seq<Product>)
    requires Sorted(f, d, s) && |s| > 0 && InOrder(f, d, s[0], x)
    requires Sorted(f, d, rest) && multiset(rest) == multiset(s[1..]) + multiset{x}
    ensures Sorted(f, d, [s[0]] + rest)
  {
    forall k | 0 <= k < |rest|
      ensures InOrder(f, d, s[0], rest[k])
    {
      assert rest[k] in multiset(rest);
      if rest[k] != x {
        assert rest[k] in multiset(s[1..]);
        var j :| 0 <= j < |s[1..]| && s[1..][j] == rest[k];
        assert s[j + 1] == rest[k];
      }
    }
    var r := [s[0]] + rest;
    forall i, j | 0 <= i < j < |r|
      ensures InOrder(f, d, r[i], r[j])
    {
      assert r[j] == rest[j - 1];
      if i > 0 {
        assert r[i] == rest[i - 1];
      }
    }
  }

  /** Insertion of one row into a sorted run. */
  function Insert(f: OrderField, d: Direction, x: Product, s: seq<Product>): (r: seq<Product>)
    requires Sorted(f, d, s)
    ensures multiset(r) == multiset(s) + multiset{x}
    ensures Sorted(f, d, r)
  {
    if |s| == 0 then [x]
    else if InOrder(f, d, x, s[0]) then
      HeadBound(f, d, x, s);
      [x] + s
    else
      InOrderTotal(f, d, x, s[0]);
      assert s == [s[0]] + s[1..];
      var rest := Insert(f, d, x, s[1..]);
      InsertStep(f, d, x, s, rest);
      [s[0]] + rest
  }

  /** One concrete ORDER BY: a permutation of `s` sorted by `f` in direction `d`. */
  function Sort(f: OrderField, d: Direction, s: seq<Product>): (r: seq<Product>)
    ensures multiset(r) == multiset(s)
    ensures Sorted(f, d, r)
  {
    if |s| == 0 then []
    else
      assert s == [s[0]] + s[1..];
      Insert(f, d, s[0], Sort(f, d, s[1..]))
  }

  lemma FilterSubset(s: seq<Product>, input: GetProductsInput, x: Product)
    requires x in Filter(s, input)
    ensures x in s && Keep(input, x)
  {
    FilterCounts(s, input);
    assert x in multiset(Filter(s, input));
  }

  /** Filtering a sorted run leaves it sorted: the WHERE clause never reorders rows. */
  lemma {:induction false} FilterKeepsOrder(f: OrderField, d: Direction, s: seq<Product>, input: GetProductsInput)
    requires Sorted(f, d, s)
    ensures Sorted(f, d, Filter(s, input))
  {
    if |s| > 0 {
      var tail := Filter(s[1..], input);
      assert Sorted(f, d, s[1..]) by {
        forall i, j | 0 <= i < j < |s[1..]|
          ensures InOrder(f, d, s[1..][i], s[1..][j])
        {
          assert s[1..][i] == s[i + 1] && s[1..][j] == s[j + 1];
        }
      }
      FilterKeepsOrder(f, d, s[1..], input);
      if Keep(input, s[0]) {
        var r := [s[0]] + tail;
        forall i, j | 0 <= i < j < |r|
          ensures InOrder(f, d, r[i], r[j])
        {
          assert r[j] == tail[j - 1];
          if i == 0 {
            FilterSubset(s[1..], input, tail[j - 1]);
            var k :| 0 <= k < |s[1..]| && s[1..][k] == tail[j - 1];
            assert s[k + 1] == tail[j - 1];
          } else {
            assert r[i] == tail[i - 1];
          }
        }
      }
    }
  }

  /**
    What the listing query promises: exactly the rows the WHERE clause keeps,
    each as often as it is stored, ordered by the allow-listed column in the
    allow-listed direction. Rows with equal keys may come in any order.
  */
  ghost predicate IsListing(products: seq<Product>, input: GetProductsInput, out: seq<Product>) {
    && (forall p :: multiset(out)[p] == if Keep(input, p) then multiset(products)[p] else 0)
    && Sorted(OrderFieldOf(input.orderBy), DirectionOf(input.sortIn), out)
  }

  /** The rows `GetProducts` returns for `input` (one of the orders the query permits). */
  function Query(products: seq<Product>, input: GetProductsInput): (r: seq<Product>)
    ensures IsListing(products, input, r)
  {
    FilterCounts(products, input);
    Sort(OrderFieldOf(input.orderBy), DirectionOf(input.sortIn), Filter(products, input))
  }

  /** A listing holds a product exactly when the table holds it and the filter keeps it. */
  lemma ListingMembers(products: seq<Product>, input: GetProductsInput, out: seq<Product>)
    requires IsListing(products, input, out)
    ensures forall p :: p in out <==> p in products && Keep(input, p)
  {
    forall p
      ensures p in out <==> p in products && Keep(input, p)
    {
      assert p in out <==> multiset(out)[p] > 0;
      assert p in products <==> multiset(products)[p] > 0;
    }
  }

  /** For wildcard-free keywords the name filter is case-insensitive substring search. */
  lemma KeepIsSubstringSearch(input: GetProductsInput, p: Product)
    requires NoWildcards(input.name)
    ensures Keep(input, p) <==>
      && IsSubstring(Lower(input.name), Lower(p.name))
      && input.minPrice <= p.priceCents <= input.maxPrice
  {
    LowerKeepsWildcards(input.name);
    LikeContains(Lower(p.name), Lower(input.name));
  }

  /** An empty keyword filters on price alone. */
  lemma EmptyKeywordKeepsAll(input: GetProductsInput, p: Product)
    requires input.name == ""
    ensures Keep(input, p) <==> input.minPrice <= p.priceCents <= input.maxPrice
  {
    assert Lower(input.name) == "";
    LikeEmptyKeyword(Lower(p.name));
  }

  /** A minimum above the maximum is not an error: the listing is simply empty. */
  lemma InvertedBoundsGiveEmptyListing(products: seq<Product>, input: GetProductsInput, out: seq<Product>)
    requires input.minPrice > input.maxPrice
    requires IsListing(products, input, out)
    ensures out == []
  {
    forall p
      ensures multiset(out)[p] == 0
    {
      assert !Keep(input, p);
    }
    assert multiset(out) == multiset{};
    assert |out| == |multiset(out)| == 0;
  }

  /** The order-by text matters only through the allow-list. */
  lemma OrderByOnlyThroughAllowList(products: seq<Product>, a: GetProductsInput, b: GetProductsInput)
    requires OrderFieldOf(a.orderBy) == OrderFieldOf(b.orderBy)
    requires a.(orderBy := b.orderBy) == b
    ensures Query(products, a) == Query(products, b)
  {
    assert forall p :: Keep(a, p) == Keep(b, p);
    assert Filter(products, a) == Filter(products, b) by {
      FilterDependsOnWhereOnly(products, a, b);
    }
  }

  /** The sort direction text matters only through the `desc` test. */
  lemma SortInOnlyThroughDesc(products: seq<Product>, a: GetProductsInput, b: GetProductsInput)
    requires DirectionOf(a.sortIn) == DirectionOf(b.sortIn)
    requires a.(sortIn := b.sortIn) == b
    ensures Query(products, a) == Query(products, b)
  {
    assert forall p :: Keep(a, p) == Keep(b, p);
    assert Filter(products, a) == Filter(products, b) by {
      FilterDependsOnWhereOnly(products, a, b);
    }
  }

  lemma {:induction false} FilterDependsOnWhereOnly(products: seq<Product>, a: GetProductsInput, b: GetProductsInput)
    requires a.name == b.name && a.minPrice == b.minPrice && a.maxPrice == b.maxPrice
    ensures Filter(products, a) == Filter(products, b)
  {
    if |products| > 0 {
      FilterDependsOnWhereOnly(products[1..], a, b);
    }
  }

  /** Column `f` tells the rows of `s` apart: equal keys only on equal rows. */
  predicate ColumnIsKey(f: OrderField, s: seq<Product>) {
    forall i, j :: 0 <= i < |s| && 0 <= j < |s| && KeyLeq(f, s[i], s[j]) && KeyLeq(f, s[j], s[i]) ==> s[i] == s[j]
  }

  /** The first rows of two sorted permutations agree when the sort column is a key. */
  lemma SortedHeadsAgree(f: OrderField, d: Direction, a: seq<Product>, b: seq<Product>)
    requires Sorted(f, d, a) && Sorted(f, d, b) && multiset(a) == multiset(b)
    requires ColumnIsKey(f, a) && |a| > 0
    ensures |b| > 0 && a[0] == b[0]
  {
    assert a[0] in multiset(b);
    var i :| 0 <= i < |b| && b[i] == a[0];
    assert b[0] in multiset(a);
    var j :| 0 <= j < |a| && a[j] == b[0];
    if i > 0 && j > 0 {
      assert KeyLeq(f, a[0], a[j]) && KeyLeq(f, a[j], a[0]);
    }
  }

  lemma DropCommonHead(a: seq<Product>, b: seq<Product>)
    requires multiset(a) == multiset(b) && |a| > 0 && |b| > 0 && a[0] == b[0]
    ensures multiset(a[1..]) == multiset(b[1..])
  {
    assert a == [a[0]] + a[1..] && b == [b[0]] + b[1..];
    assert multiset(a) == multiset{a[0]} + multiset(a[1..]);
    assert multiset(b) == multiset{b[0]} + multiset(b[1..]);
    forall p
      ensures multiset(a[1..])[p] == multiset(b[1..])[p]
    {
      assert multiset(a[1..])[p] == multiset(a)[p] - multiset{a[0]}[p];
      assert multiset(b[1..])[p] == multiset(b)[p] - multiset{b[0]}[p];
    }
  }

  lemma KeyOfTail(f: OrderField, a: seq<Product>)
    requires ColumnIsKey(f, a) && |a| > 0
    ensures ColumnIsKey(f, a[1..])
  {
    forall i, j | 0 <= i < |a[1..]| && 0 <= j < |a[1..]|
      ensures KeyLeq(f, a[1..][i], a[1..][j]) && KeyLeq(f, a[1..][j], a[1..][i]) ==> a[1..][i] == a[1..][j]
    {
      assert a[1..][i] == a[i + 1] && a[1..][j] == a[j + 1];
    }
  }

  /** Two sorted permutations of the same rows are equal when the sort column is a key. */
  lemma {:induction false} SortedPermutationUnique(f: OrderField, d: Direction, a: seq<Product>, b: seq<Product>)
    requires Sorted(f, d, a) && Sorted(f, d, b) && multiset(a) == multiset(b)
    requires ColumnIsKey(f, a)
    ensures a == b
  {
    assert |a| == |multiset(a)| == |multiset(b)| == |b|;
    if |a| > 0 {
      SortedHeadsAgree(f, d, a, b);
      DropCommonHead(a, b);
      KeyOfTail(f, a);
      SortedPermutationUnique(f, d, a[1..], b[1..]);
      assert a == [a[0]] + a[1..] && b == [b[0]] + b[1..];
    }
  }

  /** When the sort column tells the stored rows apart, the listing is fully determined. */
  lemma ListingDeterminedByKey(products: seq<Product>, input: GetProductsInput, out: seq<Product>)
    requires ColumnIsKey(OrderFieldOf(input.orderBy), products)
    requires IsListing(products, input, out)
    ensures out == Query(products, input)
  {
    var f := OrderFieldOf(input.orderBy);
    var q := Query(products, input);
    assert multiset(out) == multiset(q) by {
      forall p
        ensures multiset(out)[p] == multiset(q)[p]
      {
      }
    }
    ListingMembers(products, input, out);
    assert ColumnIsKey(f, out) by {
      forall i, j | 0 <= i < |out| && 0 <= j < |out| && KeyLeq(f, out[i], out[j]) && KeyLeq(f, out[j], out[i])
        ensures out[i] == out[j]
      {
        assert out[i] in products && out[j] in products;
        var x :| 0 <= x < |products| && products[x] == out[i];
        var y :| 0 <= y < |products| && products[y] == out[j];
      }
    }
    SortedPermutationUnique(f, DirectionOf(input.sortIn), out, q);
  }

  /** Product names are unique in the table (its unique index), so ordering by name is total. */
  predicate UniqueNames(products: seq<Product>) {
    forall i, j :: 0 <= i < |products| && 0 <= j < |products| && products[i].name == products[j].name ==> i == j
  }

  lemma NameIsKey(products: seq<Product>)
    requires UniqueNames(products)
    ensures ColumnIsKey(Name, products)
  {
    forall i, j | 0 <= i < |products| && 0 <= j < |products| && KeyLeq(Name, products[i], products[j]) && KeyLeq(Name, products[j], products[i])
      ensures products[i] == products[j]
    {
      LexAntisymmetric(products[i].name, products[j].name);
    }
  }
}
