/** `calculate_total_value` of `TotalCost.py`: keep the `$` prices, parse
    them, sort them, drop the `ignore_highest` largest and add up the rest.
    Prices are exact decimals (`real`), not binary floats. */
module TotalCost {
  import opened Records
  import opened Decimal

  const PriceKey := "Current Price"

  /** `str.isspace()` on the ASCII range. */
  predicate IsSpace(c: char) {
    c == ' ' || (9 <= c as int <= 13) || (28 <= c as int <= 31)
  }

  /** `s.lstrip()`: drops the leading whitespace and nothing else. */
  function StripLeft(s: string): (r: string)
    ensures |r| <= |s| && r == s[|s| - |r|..]
    ensures forall i :: 0 <= i < |s| - |r| ==> IsSpace(s[i])
    ensures r != [] ==> !IsSpace(r[0])
  {
    if s != [] && IsSpace(s[0]) then
      var r := StripLeft(s[1..]);
      assert s[1..][|s| - 1 - |r|..] == s[|s| - |r|..];
      r
    else s
  }

  /** `s.rstrip()`: drops the trailing whitespace and nothing else. */
  function StripRight(s: string): (r: string)
    ensures |r| <= |s| && r == s[..|r|]
    ensures forall i :: |r| <= i < |s| ==> IsSpace(s[i])
    ensures r != [] ==> !IsSpace(r[|r| - 1])
  {
    if s != [] && IsSpace(s[|s| - 1]) then
      var r := StripRight(s[..|s| - 1]);
      assert s[..|s| - 1][..|r|] == s[..|r|];
      r
    else s
  }

  /** `str.strip()`: the text between the leading and the trailing
      whitespace, which starts and ends with a character that is not. */
  function Strip(s: string): (r: string)
    ensures var k := |s| - |StripLeft(s)|;
      k + |r| <= |s| && r == s[k..k + |r|] &&
      (forall i :: 0 <= i < k ==> IsSpace(s[i])) && (forall i :: k + |r| <= i < |s| ==> IsSpace(s[i]))
    ensures r != [] ==> !IsSpace(r[0]) && !IsSpace(r[|r| - 1])
  {
    var left := StripLeft(s);
    var r := StripRight(left);
    StripInside(s, left, r);
    r
  }

  /** Cutting leading whitespace off `s` to give `left`, then trailing
      whitespace off `left` to give `r`, leaves `r` inside `s` with only
      whitespace around it. */
  lemma StripInside(s: string, left: string, r: string)
    requires |left| <= |s| && left == s[|s| - |left|..]
    requires forall i :: 0 <= i < |s| - |left| ==> IsSpace(s[i])
    requires left != [] ==> !IsSpace(left[0])
    requires |r| <= |left| && r == left[..|r|]
    requires forall i :: |r| <= i < |left| ==> IsSpace(left[i])
    requires r != [] ==> !IsSpace(r[|r| - 1])
    ensures var k := |s| - |left|;
      k + |r| <= |s| && r == s[k..k + |r|] &&
      (forall i :: 0 <= i < k ==> IsSpace(s[i])) && (forall i :: k + |r| <= i < |s| ==> IsSpace(s[i])) &&
      (r != [] ==> !IsSpace(r[0]) && !IsSpace(r[|r| - 1]))
  {
    var k := |s| - |left|;
    forall i | k + |r| <= i < |s|
      ensures IsSpace(s[i])
    {
      assert s[i] == left[i - k];
    }
    if r != [] {
      assert r[0] == left[0];
    }
  }

  /** `s.replace(c, "")`. */
  function RemoveAll(s: string, c: char): (r: string)
    ensures c !in r && |r| <= |s|
    ensures multiset(r) == multiset(s)[c := 0]
  {
    if s == [] then []
    else
      var rest := RemoveAll(s[1..], c);
      assert s == [s[0]] + s[1..];
      (if s[0] == c then [] else [s[0]]) + rest
  }

  /** `replace` works piece by piece, so the characters it keeps stay in
      their order. */
  lemma {:induction false} RemoveAllConcat(a: string, b: string, c: char)
    ensures RemoveAll(a + b, c) == RemoveAll(a, c) + RemoveAll(b, c)
  {
    if a != [] {
      assert (a + b)[1..] == a[1..] + b;
      RemoveAllConcat(a[1..], b, c);
    } else {
      assert a + b == b;
    }
  }

  function FindChar(s: string, c: char): (i: nat)
    requires c in s
    ensures i < |s| && s[i] == c && c !in s[..i]
  {
    if s[0] == c then 0 else 1 + FindChar(s[1..], c)
  }

  /** The value of `whole.frac`. */
  function DecimalValue(whole: string, frac: string): real
    requires AllDigits(whole) && AllDigits(frac)
  {
    Value(whole) as real + Value(frac) as real / Pow10(|frac|) as real
  }

  /** The decimal number written as digits with at most one point. */
  function Unsigned(s: string): (r: Option<real>)
    ensures r.Some? ==> s != [] && forall i :: 0 <= i < |s| ==> IsDigit(s[i]) || s[i] == '.'
    ensures s != [] && AllDigits(s) ==> r == Some(Value(s) as real)
  {
    if '.' in s then
      var i := FindChar(s, '.');
      var whole, frac := s[..i], s[i + 1..];
      if AllDigits(whole) && AllDigits(frac) && |whole| + |frac| >= 1
      then
        assert forall j :: 0 <= j < |s| && j != i ==> (if j < i then s[j] == whole[j] else s[j] == frac[j - i - 1]);
        Some(DecimalValue(whole, frac))
      else None
    else if AllDigits(s) && |s| >= 1 then Some(Value(s) as real)
    else None
  }

  /** `float(s)` on an optional sign followed by digits with at most one
      decimal point; `None` stands for the `ValueError` it raises. Whatever
      it accepts holds no `$` and no `,`. */
  function ParseNumber(s: string): (r: Option<real>)
    ensures r.Some? ==>
      s != [] && forall i :: 0 <= i < |s| ==> IsDigit(s[i]) || s[i] == '.' || (i == 0 && (s[i] == '+' || s[i] == '-'))
    ensures s != [] && AllDigits(s) ==> r == Some(Value(s) as real)
    ensures |s| >= 2 && s[0] == '-' && AllDigits(s[1..]) ==> r == Some(-(Value(s[1..]) as real))
  {
    if s != [] && (s[0] == '+' || s[0] == '-') then
      match Unsigned(s[1..])
      case Some(v) =>
        assert forall i :: 1 <= i < |s| ==> s[i] == s[1..][i - 1];
        Some(if s[0] == '-' then -v else v)
      case None => None
    else Unsigned(s)
  }

  /** The text `item.get("Current Price", "")` after `strip()`. */
  function PriceText(item: Dict): string {
    Strip(match Get(item, PriceKey) case Some(v) => v case None => "")
  }

  /** The value one item contributes to `prices`, if it contributes one: a
      missing or empty price never counts, and a counted price starts with
      `$` once stripped. */
  function PriceOf(item: Dict): (r: Option<real>)
    ensures !Truthy(Get(item, PriceKey)) ==> r.None?
    ensures r.Some? ==> PriceText(item) != [] && PriceText(item)[0] == '$'
  {
    var s := PriceText(item);
    if s != [] && s[0] == '$' then ParseNumber(RemoveAll(RemoveAll(s, '$'), ',')) else None
  }

  /** The `prices` list the loop builds, in catalog order. */
  function ValidPrices(data: seq<Dict>): (prices: seq<real>)
    ensures |prices| <= |data|
  {
    if data == [] then []
    else
      var rest := ValidPrices(data[..|data| - 1]);
      match PriceOf(data[|data| - 1])
      case Some(p) => rest + [p]
      case None => rest
  }

  predicate Sorted(s: seq<real>) {
    forall i, j :: 0 <= i < j < |s| ==> s[i] <= s[j]
  }

  /** `x` placed before the first element of `s` it does not exceed. */
  function Insert(x: real, s: seq<real>): (r: seq<real>)
    ensures |r| == |s| + 1
  {
    if s == [] || x <= s[0] then [x] + s
    else [s[0]] + Insert(x, s[1..])
  }

  /** Inserting adds `x` and nothing else, and the result starts with `x`
      or with the old first element. */
  lemma {:induction false} InsertAdds(x: real, s: seq<real>)
    ensures multiset(Insert(x, s)) == multiset(s) + multiset{x}
    ensures Insert(x, s)[0] == x || (s != [] && Insert(x, s)[0] == s[0])
  {
    if s != [] && x > s[0] {
      InsertAdds(x, s[1..]);
      assert s == [s[0]] + s[1..];
    }
  }

  /** Inserting into a sorted list keeps it sorted. */
  lemma {:induction false} InsertSorted(x: real, s: seq<real>)
    requires Sorted(s)
    ensures Sorted(Insert(x, s))
  {
    if s == [] || x <= s[0] {
      SortedCons(x, s);
    } else {
      var rest := s[1..];
      assert Sorted(rest);
      InsertSorted(x, rest);
      InsertAdds(x, rest);
      assert rest != [] ==> rest[0] == s[1];
      SortedCons(s[0], Insert(x, rest));
    }
  }

  /** A least element in front keeps a list sorted. */
  lemma SortedCons(h: real, s: seq<real>)
    requires Sorted(s) && (s != [] ==> h <= s[0])
    ensures Sorted([h] + s)
  {
    var t := [h] + s;
    forall i, j | 0 <= i < j < |t| ensures t[i] <= t[j] {
      assert t[j] == s[j - 1];
      if i > 0 {
        assert t[i] == s[i - 1];
      }
    }
  }

  /** `sorted(prices)`. */
  function Sort(s: seq<real>): (r: seq<real>)
    ensures Sorted(r) && multiset(r) == multiset(s) && |r| == |s|
  {
    if s == [] then []
    else
      assert s == [s[0]] + s[1..];
      var rest := Sort(s[1..]);
      InsertAdds(s[0], rest);
      InsertSorted(s[0], rest);
      Insert(s[0], rest)
  }

  /** `prices_sorted[:-ignore_highest]`, taken only when `ignore_highest > 0`;
      a count past the length leaves nothing. */
  function WithoutHighest(sorted: seq<real>, ignoreHighest: int): seq<real> {
    if ignoreHighest > 0 then sorted[..if |sorted| > ignoreHighest then |sorted| - ignoreHighest else 0]
    else sorted
  }

  /** The prices that are added up: the sorted prices without the
      `ignore_highest` highest. */
  function Kept(prices: seq<real>, ignoreHighest: int): seq<real> {
    WithoutHighest(Sort(prices), ignoreHighest)
  }

  /** The prices the slice leaves out. */
  function Dropped(prices: seq<real>, ignoreHighest: int): seq<real> {
    Sort(prices)[|Kept(prices, ignoreHighest)|..]
  }

  function Sum(s: seq<real>): real {
    if s == [] then 0.0 else s[0] + Sum(s[1..])
  }

  /** The value `calculate_total_value(data, ignore_highest)` returns. */
  function TotalValue(data: seq<Dict>, ignoreHighest: int): (total: real)
    ensures ignoreHighest <= 0 ==> total == Sum(ValidPrices(data))
    ensures ignoreHighest >= |ValidPrices(data)| ==> total == 0.0
  {
    var prices := ValidPrices(data);
    if ignoreHighest <= 0 then
      SortedSum(prices);
      Sum(Kept(prices, ignoreHighest))
    else
      Sum(Kept(prices, ignoreHighest))
  }

  /** `calculate_total_value(data, ignore_highest)`. */
  method CalculateTotalValue(data: seq<Dict>, ignoreHighest: int) returns (total: real)
    ensures total == TotalValue(data, ignoreHighest)
    ensures ignoreHighest <= 0 ==> total == Sum(ValidPrices(data))
    ensures ignoreHighest >= |ValidPrices(data)| ==> total == 0.0
  {
    var prices := CollectPrices(data);
    total := SumWithoutHighest(prices, ignoreHighest);
  }

  /** The rest of `calculate_total_value`: sort, slice off the highest and
      add up. */
  method SumWithoutHighest(prices: seq<real>, ignoreHighest: int) returns (total: real)
    ensures total == Sum(Kept(prices, ignoreHighest))
  {
    var pricesSorted := Sort(prices);
    if ignoreHighest > 0 {
      pricesSorted := pricesSorted[..if |pricesSorted| > ignoreHighest then |pricesSorted| - ignoreHighest else 0];
    }
    assert pricesSorted == WithoutHighest(Sort(prices), ignoreHighest);
    total := Sum(pricesSorted);
  }

  /** The loop of `calculate_total_value` that collects the `$` prices in
      item order, skipping the ones `float` rejects. */
  method CollectPrices(data: seq<Dict>) returns (prices: seq<real>)
    ensures prices == ValidPrices(data)
  {
    prices := [];
    for i := 0 to |data|
      invariant prices == ValidPrices(data[..i])
    {
      ValidPricesStep(data, i);
      var price := PriceOf(data[i]);
      if price.Some? {
        prices := prices + [price.value];
      }
    }
    assert data[..|data|] == data;
  }

  /** The values `f` gives the elements of `xs`, skipping `None`, in order:
      `ValidPrices` with the price of an item left open. */
  function Present<T>(xs: seq<T>, f: T -> Option<real>): seq<real> {
    if xs == [] then []
    else
      var rest := Present(xs[..|xs| - 1], f);
      match f(xs[|xs| - 1])
      case Some(p) => rest + [p]
      case None => rest
  }

  /** Every element's value is in the list, and every value in the list is
      some element's. */
  lemma {:induction false} PresentMembers<T>(xs: seq<T>, f: T -> Option<real>)
    ensures forall i :: 0 <= i < |xs| && f(xs[i]).Some? ==> f(xs[i]).value in Present(xs, f)
    ensures forall p :: p in Present(xs, f) ==> exists i :: 0 <= i < |xs| && f(xs[i]) == Some(p)
  {
    if xs != [] {
      var n := |xs| - 1;
      var front := xs[..n];
      PresentMembers(front, f);
      forall i | 0 <= i < |xs| && f(xs[i]).Some?
        ensures f(xs[i]).value in Present(xs, f)
      {
        if i < n {
          assert xs[i] == front[i];
        }
      }
      forall p | p in Present(xs, f)
        ensures exists i :: 0 <= i < |xs| && f(xs[i]) == Some(p)
      {
        if p in Present(front, f) {
          var i :| 0 <= i < |front| && f(front[i]) == Some(p);
          assert xs[i] == front[i];
        } else {
          assert f(xs[n]) == Some(p);
        }
      }
    }
  }

  lemma {:induction false} ValidPricesPresent(data: seq<Dict>)
    ensures ValidPrices(data) == Present(data, PriceOf)
  {
    if data != [] {
      ValidPricesPresent(data[..|data| - 1]);
    }
  }

  /** Every counted item's price is in the list, and every price in the
      list is some item's. */
  lemma ValidPricesMembers(data: seq<Dict>)
    ensures forall i :: 0 <= i < |data| && PriceOf(data[i]).Some? ==> PriceOf(data[i]).value in ValidPrices(data)
    ensures forall p :: p in ValidPrices(data) ==> exists i :: 0 <= i < |data| && PriceOf(data[i]) == Some(p)
  {
    ValidPricesPresent(data);
    PresentMembers(data, PriceOf);
  }

  /** One more item adds its price, if it has one, at the end. */
  lemma ValidPricesStep(data: seq<Dict>, i: nat)
    requires i < |data|
    ensures ValidPrices(data[..i + 1]) ==
      ValidPrices(data[..i]) + match PriceOf(data[i]) case Some(p) => [p] case None => []
  {
    var front := data[..i + 1];
    assert front[..|front| - 1] == data[..i] && front[|front| - 1] == data[i];
  }

  lemma {:induction false} SumConcat(a: seq<real>, b: seq<real>)
    ensures Sum(a + b) == Sum(a) + Sum(b)
  {
    if a == [] {
      assert a + b == b;
    } else {
      assert (a + b)[0] == a[0] && (a + b)[1..] == a[1..] + b;
      SumConcat(a[1..], b);
    }
  }

  /** The sum of a list does not depend on the order of its elements. */
  lemma {:induction false} SumPermutation(a: seq<real>, b: seq<real>)
    requires multiset(a) == multiset(b)
    ensures Sum(a) == Sum(b)
    decreases |a|
  {
    if a == [] {
      assert |b| == |multiset(b)| == 0;
    } else {
      var x := a[0];
      assert x in multiset(b);
      var j :| 0 <= j < |b| && b[j] == x;
      RemoveOne(a, b, j);
      SumPermutation(a[1..], b[..j] + b[j + 1..]);
      assert b == b[..j] + [x] + b[j + 1..];
      SumConcat(b[..j], b[j + 1..]);
      SumConcat(b[..j] + [x], b[j + 1..]);
      SumConcat(b[..j], [x]);
    }
  }

  lemma SortedSum(prices: seq<real>)
    ensures Sum(Sort(prices)) == Sum(prices)
  {
    SumPermutation(Sort(prices), prices);
  }

  /** The slice keeps the smallest prices in ascending order and leaves out
      exactly `min(ignore_highest, len(prices))` of them when
      `ignore_highest > 0`, none otherwise; every price left out is at least
      every price kept, and kept and left out together are all the prices. */
  lemma KeptAndDropped(prices: seq<real>, ignoreHighest: int)
    ensures Sorted(Kept(prices, ignoreHighest))
    ensures multiset(Kept(prices, ignoreHighest)) + multiset(Dropped(prices, ignoreHighest)) == multiset(prices)
    ensures |Dropped(prices, ignoreHighest)| ==
              if ignoreHighest <= 0 then 0
              else if ignoreHighest < |prices| then ignoreHighest else |prices|
    ensures forall i, j :: 0 <= i < |Kept(prices, ignoreHighest)| && 0 <= j < |Dropped(prices, ignoreHighest)| ==>
              Kept(prices, ignoreHighest)[i] <= Dropped(prices, ignoreHighest)[j]
  {
    var sorted := Sort(prices);
    var kept := Kept(prices, ignoreHighest);
    assert kept == sorted[..|kept|];
    SortedSplit(sorted, |kept|);
  }

  /** Cutting an ascending list leaves an ascending front, every element of
      which is at most every element of the back. */
  lemma SortedSplit(s: seq<real>, n: nat)
    requires Sorted(s) && n <= |s|
    ensures Sorted(s[..n]) && s == s[..n] + s[n..]
    ensures multiset(s[..n]) + multiset(s[n..]) == multiset(s)
    ensures forall i, j :: 0 <= i < n && 0 <= j < |s| - n ==> s[..n][i] <= s[n..][j]
  {
    assert s == s[..n] + s[n..];
    forall i, j | 0 <= i < n && 0 <= j < |s| - n
      ensures s[..n][i] <= s[n..][j]
    {
      assert s[..n][i] == s[i] && s[n..][j] == s[n + j];
    }
  }

  /** The total plus the prices left out is the sum of every valid price. */
  lemma TotalPlusDropped(data: seq<Dict>, ignoreHighest: int)
    ensures TotalValue(data, ignoreHighest) + Sum(Dropped(ValidPrices(data), ignoreHighest)) ==
            Sum(ValidPrices(data))
  {
    KeptPlusDropped(ValidPrices(data), ignoreHighest);
  }

  lemma KeptPlusDropped(prices: seq<real>, ignoreHighest: int)
    ensures Sum(Kept(prices, ignoreHighest)) + Sum(Dropped(prices, ignoreHighest)) == Sum(prices)
  {
    var sorted := Sort(prices);
    assert sorted == Kept(prices, ignoreHighest) + Dropped(prices, ignoreHighest);
    SumConcat(Kept(prices, ignoreHighest), Dropped(prices, ignoreHighest));
    SortedSum(prices);
  }

  lemma ValidPricesConcat(a: seq<Dict>, b: seq<Dict>)
    ensures ValidPrices(a + b) == ValidPrices(a) + ValidPrices(b)
  {
    ValidPricesPresent(a);
    ValidPricesPresent(b);
    ValidPricesPresent(a + b);
    PresentConcat(a, b, PriceOf);
  }

  /** Filtering two lists joined is filtering each and joining. */
  lemma {:induction false} PresentConcat<T>(a: seq<T>, b: seq<T>, f: T -> Option<real>)
    ensures Present(a + b, f) == Present(a, f) + Present(b, f)
    decreases |b|
  {
    if b == [] {
      assert a + b == a;
    } else {
      var front := b[..|b| - 1];
      assert (a + b)[..|a + b| - 1] == a + front;
      assert (a + b)[|a + b| - 1] == b[|b| - 1];
      PresentConcat(a, front, f);
    }
  }

  lemma {:induction false} ValidPricesPermutation(a: seq<Dict>, b: seq<Dict>)
    requires multiset(a) == multiset(b)
    ensures multiset(ValidPrices(a)) == multiset(ValidPrices(b))
    decreases |a|
  {
    if a == [] {
      assert |b| == |multiset(b)| == 0;
    } else {
      var x := a[0];
      assert x in multiset(b);
      var j :| 0 <= j < |b| && b[j] == x;
      var rest := b[..j] + b[j + 1..];
      RemoveOne(a, b, j);
      ValidPricesPermutation(a[1..], rest);
      var px, pa, p1, p2 := ValidPrices([x]), ValidPrices(a[1..]), ValidPrices(b[..j]), ValidPrices(b[j + 1..]);
      SplitAt(a, 0);
      ValidPricesConcat([x], a[1..]);
      SplitAt(b, j);
      ValidPricesConcat(b[..j] + [x], b[j + 1..]);
      ValidPricesConcat(b[..j], [x]);
      ValidPricesConcat(b[..j], b[j + 1..]);
      assert ValidPrices(a) == px + pa;
      assert ValidPrices(b) == p1 + px + p2;
      assert ValidPrices(rest) == p1 + p2;
      MiddleMoved(px, pa, p1, p2);
    }
  }

  /** Putting `middle` in front of a permutation of `left + right` gives a
      permutation of `left + middle + right`; stated apart so that the
      multiset reasoning runs in a small context. */
  lemma MiddleMoved<T>(middle: seq<T>, other: seq<T>, left: seq<T>, right: seq<T>)
    requires multiset(other) == multiset(left + right)
    ensures multiset(middle + other) == multiset(left + middle + right)
  {
  }

  /** A list around its `j`-th element; a separate lemma so that the
      identity is proved in a small context rather than inside a large proof. */
  lemma SplitAt<T>(s: seq<T>, j: nat)
    requires j < |s|
    ensures s == s[..j] + [s[j]] + s[j + 1..]
    ensures j == 0 ==> s == [s[0]] + s[1..]
  {
  }

  /** Taking the first element from one list and an equal element from a
      permutation of it leaves permutations of each other. */
  lemma RemoveOne<T>(a: seq<T>, b: seq<T>, j: nat)
    requires multiset(a) == multiset(b) && a != [] && j < |b| && b[j] == a[0]
    ensures multiset(a[1..]) == multiset(b[..j] + b[j + 1..])
  {
    var x := a[0];
    assert b == b[..j] + [x] + b[j + 1..];
    assert a == [x] + a[1..];
    assert multiset(b) == multiset(b[..j]) + multiset{x} + multiset(b[j + 1..]);
    assert multiset(a) == multiset{x} + multiset(a[1..]);
    assert multiset(b[..j] + b[j + 1..]) == multiset(b[..j]) + multiset(b[j + 1..]);
    assert multiset(b[..j] + b[j + 1..]) == multiset(b) - multiset{x};
    assert multiset(a[1..]) == multiset(a) - multiset{x};
  }

  /** The head of an ascending list is its least element. */
  lemma SortedHeadLeast(s: seq<real>, y: real)
    requires Sorted(s) && y in multiset(s)
    ensures s != [] && s[0] <= y
  {
    var j :| 0 <= j < |s| && s[j] == y;
  }

  /** Two ascending lists with the same elements are the same list. */
  lemma {:induction false} SortedUnique(a: seq<real>, b: seq<real>)
    requires Sorted(a) && Sorted(b) && multiset(a) == multiset(b)
    ensures a == b
    decreases |a|
  {
    assert |b| == |multiset(b)| == |multiset(a)| == |a|;
    if a != [] {
      assert a[0] in multiset(a) && b[0] in multiset(b);
      SortedHeadLeast(b, a[0]);
      SortedHeadLeast(a, b[0]);
      RemoveOne(a, b, 0);
      assert b[..0] + b[1..] == b[1..];
      SortedUnique(a[1..], b[1..]);
      SplitAt(a, 0);
      SplitAt(b, 0);
    }
  }

  /** The total does not depend on the order of the catalog. */
  lemma TotalOrderIndependent(a: seq<Dict>, b: seq<Dict>, ignoreHighest: int)
    requires multiset(a) == multiset(b)
    ensures TotalValue(a, ignoreHighest) == TotalValue(b, ignoreHighest)
  {
    ValidPricesPermutation(a, b);
    var pa, pb := ValidPrices(a), ValidPrices(b);
    var sa, sb := Sort(pa), Sort(pb);
    assert multiset(sa) == multiset(pa) == multiset(pb) == multiset(sb);
    SortedUnique(sa, sb);
  }

  lemma {:induction false} RemoveAllAbsent(s: string, c: char)
    requires c !in s
    ensures RemoveAll(s, c) == s
  {
    if s != [] {
      assert c !in s[1..];
      RemoveAllAbsent(s[1..], c);
      assert s == [s[0]] + s[1..];
    }
  }

  /** A price as the scraped page shows it: `$`, the dollars, a point and
      two digits of cents. */
  function Rendered(dollars: nat, cents: nat): string
    requires cents < 100
  {
    "$" + Digits(dollars) + "." + Padded(cents, 2)
  }

  /** Stripping a rendered price and removing `$` and `,` leaves the
      dollars, the point and the cents. */
  lemma RenderedCleaned(dollars: nat, cents: nat)
    requires cents < 100
    ensures var s := Strip(Rendered(dollars, cents));
            s != [] && s[0] == '$' &&
            RemoveAll(RemoveAll(s, '$'), ',') == Digits(dollars) + "." + Padded(cents, 2)
  {
    var d, p := Digits(dollars), Padded(cents, 2);
    PaddedValue(cents, 2);
    var t := d + "." + p;
    assert Rendered(dollars, cents) == "$" + t;
    NoMarks(d, p);
    assert IsDigit(t[|t| - 1]);
    DollarCleaned(t);
  }

  /** A `$` followed by text ending in a digit and holding no `$` or `,`
      strips to itself and cleans to the text. */
  lemma DollarCleaned(t: string)
    requires |t| >= 1 && IsDigit(t[|t| - 1]) && '$' !in t && ',' !in t
    ensures Strip("$" + t) == "$" + t
    ensures RemoveAll(RemoveAll("$" + t, '$'), ',') == t
  {
    var s := "$" + t;
    assert |s| == |t| + 1 && s[0] == '$';
    assert s[|s| - 1] == t[|t| - 1];
    RenderedUnstripped(s);
    DollarRemoved(t);
    RemoveAllAbsent(t, ',');
  }

  lemma DollarRemoved(t: string)
    requires '$' !in t
    ensures RemoveAll("$" + t, '$') == t
  {
    var s := "$" + t;
    assert s[0] == '$' && s[1..] == t;
    RemoveAllAbsent(t, '$');
  }

  lemma RenderedUnstripped(s: string)
    requires |s| >= 2 && s[0] == '$' && IsDigit(s[|s| - 1])
    ensures Strip(s) == s
  {
    assert StripLeft(s) == s;
  }

  lemma NoMarks(d: string, p: string)
    requires AllDigits(d) && AllDigits(p)
    ensures '$' !in d + "." + p && ',' !in d + "." + p
  {
    var t := d + "." + p;
    forall i | 0 <= i < |t|
      ensures t[i] != '$' && t[i] != ','
    {
      if i < |d| {
        assert t[i] == d[i];
      } else if i > |d| {
        assert t[i] == p[i - |d| - 1];
      }
    }
  }

  /** `float` of digits, a point and digits is their exact decimal value. */
  lemma PointNumberParses(d: string, p: string)
    requires |d| >= 1 && AllDigits(d) && AllDigits(p)
    ensures ParseNumber(d + "." + p) == Some(DecimalValue(d, p))
  {
    var t := d + "." + p;
    assert t[0] == d[0];
    assert t[|d|] == '.';
    var i := FindChar(t, '.');
    assert i == |d|;
    assert t[..i] == d && t[i + 1..] == p;
  }

  /** A rendered price counts with its exact value. */
  lemma RenderedPriceParses(item: Dict, dollars: nat, cents: nat)
    requires cents < 100 && Get(item, PriceKey) == Some(Rendered(dollars, cents))
    ensures PriceOf(item) == Some(dollars as real + cents as real / 100.0)
  {
    RenderedCleaned(dollars, cents);
    RenderedNumber(dollars, cents);
  }

  /** The cleaned text of a rendered price reads as its exact value. */
  lemma RenderedNumber(dollars: nat, cents: nat)
    requires cents < 100
    ensures ParseNumber(Digits(dollars) + "." + Padded(cents, 2)) == Some(dollars as real + cents as real / 100.0)
  {
    var d, p := Digits(dollars), Padded(cents, 2);
    assert Pow10(2) == 100;
    PaddedRoundTrip(cents, 2);
    ValueOfDigits(dollars);
    CentsParse(d, p, dollars, cents);
  }

  /** Dollars, a point and two cent digits parse to `dollars + cents/100`. */
  lemma CentsParse(d: string, p: string, dollars: nat, cents: nat)
    requires |d| >= 1 && AllDigits(d) && AllDigits(p) && |p| == 2 && Value(d) == dollars && Value(p) == cents
    ensures ParseNumber(d + "." + p) == Some(dollars as real + cents as real / 100.0)
  {
    PointNumberParses(d, p);
    CentsValue(d, p, dollars, cents);
  }

  lemma CentsValue(d: string, p: string, dollars: nat, cents: nat)
    requires AllDigits(d) && AllDigits(p) && |p| == 2 && Value(d) == dollars && Value(p) == cents
    ensures DecimalValue(d, p) == dollars as real + cents as real / 100.0
  {
    assert Pow10(2) == 100;
  }

  /** Three prices ignoring the highest, say `10.00`, `5.00` and `100.00`:
      sorted as `[5, 10, 100]`, `100` is left out and `15` is the total. */
  lemma IgnoreHighestOfThree(a: real, b: real, c: real)
    requires b < a <= c
    ensures Kept([a, b, c], 1) == [b, a]
    ensures Sum(Kept([a, b, c], 1)) == a + b
  {
    SortThree(a, b, c);
    FirstTwo(b, a, c);
    assert Kept([a, b, c], 1) == [b, a, c][..2];
    SumTwo(b, a);
  }

  /** The first two of three; stated apart so that the slice identity is
      proved in a small context. */
  lemma FirstTwo(x: real, y: real, z: real)
    ensures [x, y, z][..2] == [x, y]
  {
  }

  /** The sum of two prices; stated apart so that `Sum` is unfolded in a
      small context. */
  lemma SumTwo(x: real, y: real)
    ensures Sum([x, y]) == x + y
  {
    assert [x, y][1..] == [y] && [y][1..] == [];
    assert Sum([y]) == y + Sum([]);
  }

  /** Sorting three prices whose second is least and third is greatest. */
  lemma SortThree(a: real, b: real, c: real)
    requires b < a <= c
    ensures Sort([a, b, c]) == [b, a, c]
  {
    var s, t := [a, b, c], [b, a, c];
    assert multiset(s) == multiset{a, b, c} == multiset(t);
    assert Sorted(t);
    SortedUnique(Sort(s), t);
  }
}
