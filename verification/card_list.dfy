/** CardList: the list of card entities used for hands, decks and fields.
    Membership, `index` and `remove` go by object identity; `contains`
    goes by Python equality; `exclude` and `filter` build new lists by
    comprehension. */
module CardLists {
  import opened Wrappers
  import opened Seqs
  import opened Cards

  // ---------------------------------------------------------------------
  // Scans over a sequence of cards
  // ---------------------------------------------------------------------

  /** Whether some element is the very object x. */
  function HasIdentical(s: seq<Card>, x: Card): (b: bool)
    ensures b <==> x in s
  {
    s != [] && (x == s[0] || HasIdentical(s[1..], x))
  }

  /** Whether some element is equal to x under Python's `==`, given as eq. */
  function HasEqual<X>(s: seq<Card>, x: X, eq: (X, Card) -> bool): (b: bool)
    ensures b <==> exists i :: 0 <= i < |s| && eq(x, s[i])
  {
    if s == [] then false
    else if eq(x, s[0]) then true
    else
      var b := HasEqual(s[1..], x, eq);
      assert b ==> exists i :: 0 <= i < |s| && eq(x, s[i]) by {
        if b {
          var i :| 0 <= i < |s| - 1 && eq(x, s[1..][i]);
          assert eq(x, s[i + 1]);
        }
      }
      b
  }

  /** The position of the first element that is the very object x. */
  function FirstIdentical(s: seq<Card>, x: Card): (r: Option<nat>)
    ensures r.Some? <==> x in s
    ensures r.Some? ==> r.value < |s| && s[r.value] == x && x !in s[..r.value]
  {
    if s == [] then None
    else if s[0] == x then Some(0)
    else
      match FirstIdentical(s[1..], x)
      case None => None
      case Some(i) =>
        assert s[..i + 1] == [s[0]] + s[1..][..i];
        Some(i + 1)
  }

  /** The list after deleting its first element identical to x, or the
      ValueError raised when there is none. */
  function RemoveFirst(s: seq<Card>, x: Card): (r: Result<seq<Card>>)
    ensures r.Ok? <==> x in s
    ensures r.Err? ==> r.error == ValueError
    ensures r.Ok? ==> |r.value| == |s| - 1 && multiset(r.value) == multiset(s) - multiset{x}
  {
    match FirstIdentical(s, x)
    case None => Err(ValueError)
    case Some(i) =>
      assert s == s[..i] + [x] + s[i + 1..];
      Ok(s[..i] + s[i + 1..])
  }

  /** remove deletes the first identical element and no other: the list
      splits at that element, and the rest keep their order. */
  lemma RemoveFirstDeletesFirst(s: seq<Card>, x: Card)
    requires x in s
    ensures exists i :: 0 <= i < |s| && s[i] == x && x !in s[..i] && RemoveFirst(s, x) == Ok(s[..i] + s[i + 1..])
    ensures Subseq(RemoveFirst(s, x).value, s)
  {
    var i := FirstIdentical(s, x).value;
    assert RemoveFirst(s, x) == Ok(s[..i] + s[i + 1..]);
    assert s == s[..i] + [x] + s[i + 1..];
    SubseqDropOne(s[..i], x, s[i + 1..]);
  }

  // ---------------------------------------------------------------------
  // The comprehensions of exclude and filter
  // ---------------------------------------------------------------------

  /** getattr(e, k, default). */
  function GetAttr(e: Card, k: string, default: int): (v: int)
    ensures k in e.attrs ==> v == e.attrs[k]
    ensures k !in e.attrs ==> v == default
  {
    if k in e.attrs then e.attrs[k] else default
  }

  /** The condition a comprehension of exclude or filter applies to each element. */
  datatype Test =
    | NotIdentical(other: Card)           // e is not other
    | AttrEquals(key: string, value: int)  // getattr(e, key, 0) == value
    | AttrDiffers(key: string, value: int) // getattr(e, key) != value

  predicate Passes(t: Test, e: Card) {
    match t
    case NotIdentical(a) => e != a
    case AttrEquals(k, v) => GetAttr(e, k, 0) == v
    case AttrDiffers(k, v) => k in e.attrs && e.attrs[k] != v
  }

  /** The elements of s that pass t, in order: a comprehension with a
      condition. */
  function Select(s: seq<Card>, t: Test): (r: seq<Card>)
    ensures |r| <= |s|
    ensures forall i :: 0 <= i < |r| ==> Passes(t, r[i])
    ensures forall i :: 0 <= i < |r| ==> r[i] in s
    ensures forall i :: 0 <= i < |s| && Passes(t, s[i]) ==> s[i] in r
  {
    if s == [] then []
    else (if Passes(t, s[0]) then [s[0]] else []) + Select(s[1..], t)
  }

  /** A selection keeps every passing element as often as it occurs, and
      nothing else. */
  lemma {:induction false} SelectCount(s: seq<Card>, t: Test, e: Card)
    ensures multiset(Select(s, t))[e] == if Passes(t, e) then multiset(s)[e] else 0
  {
    if s != [] {
      SelectCount(s[1..], t, e);
      var head: seq<Card> := if Passes(t, s[0]) then [s[0]] else [];
      assert Select(s, t) == head + Select(s[1..], t);
      assert multiset(Select(s, t))[e] == multiset(head)[e] + multiset(Select(s[1..], t))[e];
      HeadCount(s, e);
    }
  }

  /** Counting in a non-empty sequence: its head plus its tail. */
  lemma HeadCount(s: seq<Card>, e: Card)
    requires s != []
    ensures multiset(s)[e] == (if s[0] == e then 1 else 0) + multiset(s[1..])[e]
  {
    assert s == [s[0]] + s[1..];
  }

  /** A selection keeps the original order. */
  lemma {:induction false} SelectSubseq(s: seq<Card>, t: Test)
    ensures Subseq(Select(s, t), s)
  {
    if s != [] {
      SelectSubseq(s[1..], t);
      var r := Select(s, t);
      if Passes(t, s[0]) {
        assert r[0] == s[0] && r[1..] == Select(s[1..], t);
      } else {
        assert r == Select(s[1..], t);
        assert r == [] || Subseq(r, s[1..]);
      }
    }
  }

  /** The inner loop of exclude(*args) for one element e: e once for every
      argument that is not the very object e. */
  function Copies(e: Card, args: seq<Card>): (r: seq<Card>)
    ensures |r| == |args| - multiset(args)[e]
    ensures forall i :: 0 <= i < |r| ==> r[i] == e
  {
    if args == [] then []
    else
      assert args == [args[0]] + args[1..];
      (if e != args[0] then [e] else []) + Copies(e, args[1..])
  }

  /** exclude(*args) as a value (utils.py line 55): for each element in
      turn, its copies from the inner loop over args. */
  function ExcludeIdentical(s: seq<Card>, args: seq<Card>): (r: seq<Card>)
    ensures forall i :: 0 <= i < |r| ==> r[i] in s && multiset(args)[r[i]] < |args|
    ensures forall i :: 0 <= i < |s| && multiset(args)[s[i]] < |args| ==> s[i] in r
  {
    if s == [] then []
    else
      var cp := Copies(s[0], args);
      var rest := ExcludeIdentical(s[1..], args);
      assert forall i :: 1 <= i < |s| ==> s[i] == s[1..][i - 1];
      assert multiset(args)[s[0]] < |args| ==> cp[0] == s[0];
      cp + rest
  }

  lemma {:induction false} ConstantCount(r: seq<Card>, e: Card, c: Card)
    requires forall i :: 0 <= i < |r| ==> r[i] == e
    ensures multiset(r)[c] == if c == e then |r| else 0
  {
    if r != [] {
      ConstantCount(r[1..], e, c);
      assert r == [r[0]] + r[1..];
    }
  }

  /** exclude(*args) yields each element once for every argument it is not
      identical to (w of them): the comprehensions are concatenated, not
      intersected. */
  lemma {:induction false} ExcludeIdenticalCount(s: seq<Card>, args: seq<Card>, e: Card, w: int)
    requires w == |args| - multiset(args)[e]
    ensures multiset(ExcludeIdentical(s, args))[e] == multiset(s)[e] * w
  {
    if s != [] {
      ExcludeIdenticalCount(s[1..], args, e, w);
      ExcludeIdenticalStep(s, args, e, w);
      HeadCount(s, e);
      if s[0] == e {
        CountStep(multiset(ExcludeIdentical(s, args))[e], multiset(ExcludeIdentical(s[1..], args))[e],
                  multiset(s[1..])[e], w, multiset(s)[e]);
      }
    }
  }

  /** The copies of the head come first, then the rest. */
  lemma ExcludeIdenticalStep(s: seq<Card>, args: seq<Card>, e: Card, w: int)
    requires s != [] && w == |args| - multiset(args)[e]
    ensures multiset(ExcludeIdentical(s, args))[e]
      == (if s[0] == e then w else 0) + multiset(ExcludeIdentical(s[1..], args))[e]
  {
    var cp: seq<Card> := Copies(s[0], args);
    var rest: seq<Card> := ExcludeIdentical(s[1..], args);
    assert ExcludeIdentical(s, args) == cp + rest;
    assert multiset(cp + rest)[e] == multiset(cp)[e] + multiset(rest)[e];
    ConstantCount(cp, s[0], e);
  }

  /** With one argument a, exclude keeps exactly the elements that are not a,
      in their original order. */
  lemma {:induction false} ExcludeOne(s: seq<Card>, a: Card)
    ensures ExcludeIdentical(s, [a]) == Select(s, NotIdentical(a))
  {
    if s != [] {
      ExcludeOne(s[1..], a);
      assert [a][1..] == [];
      assert Copies(s[0], [a]) == (if s[0] != a then [s[0]] else []) + [];
    }
  }

  /** How many of the keyword pairs (k, v) an element matches with getattr(e, k, 0) == v. */
  function EqualMatches(e: Card, kwargs: seq<(string, int)>): nat {
    if kwargs == [] then 0
    else (if GetAttr(e, kwargs[0].0, 0) == kwargs[0].1 then 1 else 0) + EqualMatches(e, kwargs[1..])
  }

  /** How many of the keyword pairs (k, v) an element matches with getattr(e, k) != v. */
  function DifferMatches(e: Card, kwargs: seq<(string, int)>): nat {
    if kwargs == [] then 0
    else (if Passes(AttrDiffers(kwargs[0].0, kwargs[0].1), e) then 1 else 0) + DifferMatches(e, kwargs[1..])
  }

  /** filter(**kwargs) as a value (utils.py line 60): for each keyword pair
      in turn, the elements whose attribute k, read as 0 when missing,
      equals v. */
  function FilterBy(s: seq<Card>, kwargs: seq<(string, int)>): (r: seq<Card>)
    ensures forall i :: 0 <= i < |r| ==> r[i] in s && EqualMatches(r[i], kwargs) > 0
    ensures forall i :: 0 <= i < |s| && EqualMatches(s[i], kwargs) > 0 ==> s[i] in r
  {
    if kwargs == [] then []
    else Select(s, AttrEquals(kwargs[0].0, kwargs[0].1)) + FilterBy(s, kwargs[1..])
  }

  /** filter(**kwargs) yields an element e, occurring c times in the list,
      c times for every keyword pair it matches: the comprehensions are
      concatenated, pair after pair. */
  lemma {:induction false} FilterByCount(s: seq<Card>, kwargs: seq<(string, int)>, e: Card, c: int)
    requires c == multiset(s)[e]
    ensures multiset(FilterBy(s, kwargs))[e] == c * EqualMatches(e, kwargs)
  {
    if kwargs != [] {
      var t := AttrEquals(kwargs[0].0, kwargs[0].1);
      var sel: seq<Card> := Select(s, t);
      var rest: seq<Card> := FilterBy(s, kwargs[1..]);
      FilterByCount(s, kwargs[1..], e, c);
      SelectCount(s, t, e);
      assert FilterBy(s, kwargs) == sel + rest;
      assert multiset(sel + rest)[e] == multiset(sel)[e] + multiset(rest)[e];
      PairStep(multiset(FilterBy(s, kwargs))[e], multiset(sel)[e], multiset(rest)[e],
               c, EqualMatches(e, kwargs[1..]), Passes(t, e));
    }
  }

  /** Whether every element has attribute k, so that getattr(e, k) does not raise. */
  predicate AllHave(s: seq<Card>, k: string) {
    forall i :: 0 <= i < |s| ==> k in s[i].attrs
  }

  /** exclude(**kwargs) as a value (utils.py line 57): for each keyword
      pair in turn, the elements whose attribute k differs from v, or the
      AttributeError getattr raises on an element without k. */
  function ExcludeBy(s: seq<Card>, kwargs: seq<(string, int)>): (r: Result<seq<Card>>)
    ensures r.Ok? <==> forall j :: 0 <= j < |kwargs| ==> AllHave(s, kwargs[j].0)
    ensures r.Err? ==> r.error == AttributeError
  {
    if kwargs == [] then Ok([])
    else if !AllHave(s, kwargs[0].0) then Err(AttributeError)
    else
      match ExcludeBy(s, kwargs[1..])
      case Err(e) => Err(e)
      case Ok(rest) => Ok(Select(s, AttrDiffers(kwargs[0].0, kwargs[0].1)) + rest)
  }

  /** exclude(**kwargs) yields an element once for every keyword pair whose
      attribute differs, when no element lacks a named attribute. */
  lemma {:induction false} ExcludeByCount(s: seq<Card>, kwargs: seq<(string, int)>, e: Card)
    requires ExcludeBy(s, kwargs).Ok?
    ensures multiset(ExcludeBy(s, kwargs).value)[e] == multiset(s)[e] * DifferMatches(e, kwargs)
  {
    if kwargs != [] {
      var t := AttrDiffers(kwargs[0].0, kwargs[0].1);
      var sel: seq<Card> := Select(s, t);
      var rest: seq<Card> := ExcludeBy(s, kwargs[1..]).value;
      ExcludeByCount(s, kwargs[1..], e);
      SelectCount(s, t, e);
      assert ExcludeBy(s, kwargs).value == sel + rest;
      assert multiset(sel + rest)[e] == multiset(sel)[e] + multiset(rest)[e];
      PairStep(multiset(ExcludeBy(s, kwargs).value)[e], multiset(sel)[e], multiset(rest)[e],
               multiset(s)[e], DifferMatches(e, kwargs[1..]), Passes(t, e));
    }
  }

  /** One more keyword pair adds the element's count once more when it
      matches: the arithmetic step of the keyword counting lemmas. */
  lemma PairStep(x: int, a: int, b: int, m: int, n: int, hit: bool)
    requires x == a + b && b == m * n
    requires a == if hit then m else 0
    ensures x == m * ((if hit then 1 else 0) + n)
  {
  }

  /** Adding one more occurrence adds one more copy count: the arithmetic
      step of the counting lemmas. */
  lemma CountStep(x: int, b: int, m: int, c: int, total: int)
    requires x == c + b && b == m * c && total == 1 + m
    ensures x == total * c
  {
  }

  // ---------------------------------------------------------------------
  // The list object
  // ---------------------------------------------------------------------

  /** A list of cards. Methods that change the list reassign items. */
  class CardList {
    var items: seq<Card>

    constructor (items: seq<Card>)
      ensures this.items == items
    {
      this.items := items;
    }

    /** `x in cl`: whether some element is the very object x. */
    function Includes(x: Card): (b: bool)
      reads this
      ensures b <==> exists i :: 0 <= i < |items| && items[i] == x
    {
      HasIdentical(items, x)
    }

    /** `cl.contains(x)`: whether some element is equal to x. */
    function Contains<X>(x: X, eq: (X, Card) -> bool): (b: bool)
      reads this
      ensures b <==> exists i :: 0 <= i < |items| && eq(x, items[i])
    {
      HasEqual(items, x, eq)
    }

    /** `cl.index(x)`: the first position holding the very object x. */
    function Index(x: Card): (r: Result<nat>)
      reads this
      ensures r.Ok? <==> x in items
      ensures r.Ok? ==> r.value < |items| && items[r.value] == x
      ensures r.Ok? ==> forall j :: 0 <= j < r.value ==> items[j] != x
      ensures r.Err? ==> r.error == ValueError
    {
      match FirstIdentical(items, x)
      case None => Err(ValueError)
      case Some(i) =>
        assert forall j :: 0 <= j < i ==> items[j] == items[..i][j];
        Ok(i)
    }

    /** `cl[key]` for an integer key; a negative key counts from the end. */
    function Item(key: int): (r: Result<Card>)
      reads this
      ensures r.Ok? <==> -|items| <= key < |items|
      ensures r.Err? ==> r.error == IndexError
      ensures 0 <= key < |items| ==> r == Ok(items[key])
      ensures -|items| <= key < 0 ==> r == Ok(items[|items| + key])
    {
      if 0 <= key < |items| then Ok(items[key])
      else if -|items| <= key < 0 then Ok(items[|items| + key])
      else Err(IndexError)
    }

    /** `cl[start:stop]`: the elements of the new list the slice builds. */
    function Slice(start: Option<int>, stop: Option<int>): (r: seq<Card>)
      reads this
      ensures var lo, hi := SliceBound(start, 0, |items|), SliceBound(stop, |items|, |items|);
        && |r| == (if lo < hi then hi - lo else 0)
        && forall j :: 0 <= j < |r| ==> r[j] == items[lo + j]
    {
      var lo := SliceBound(start, 0, |items|);
      var hi := SliceBound(stop, |items|, |items|);
      if lo < hi then items[lo..hi] else []
    }

    /** `int(cl)`: the number of cards, as serialised. */
    function Int(): (n: nat)
      reads this
      ensures n == |items|
    {
      |items|
    }

    /** `cl.remove(x)`: deletes the first element identical to x in place, or
        raises ValueError and leaves the list as it was. */
    method Remove(x: Card) returns (outcome: Outcome)
      modifies this
      ensures match RemoveFirst(old(items), x)
              case Ok(rest) => outcome == Pass && items == rest
              case Err(e) => outcome == Fail(e) && items == old(items)
    {
      var i := 0;
      while i < |items|
        invariant 0 <= i <= |items|
        invariant items == old(items)
        invariant x !in items[..i]
      {
        if x == items[i] {
          assert FirstIdentical(items, x) == Some(i);
          items := items[..i] + items[i + 1..];
          return Pass;
        }
        assert items[..i + 1] == items[..i] + [items[i]];
        i := i + 1;
      }
      assert items[..i] == items;
      return Fail(ValueError);
    }

    /** `cl.exclude(*args, **kwargs)`: with positional arguments, each element
        once per argument it is not identical to; otherwise, per keyword
        pair (k, v), the elements whose attribute k is not v. */
    function Exclude(args: seq<Card>, kwargs: seq<(string, int)>): (r: Result<seq<Card>>)
      reads this
      ensures |args| > 0 ==> r.Ok?
      ensures |args| == 0 ==> (r.Ok? <==> forall j :: 0 <= j < |kwargs| ==> AllHave(items, kwargs[j].0))
      ensures r.Err? ==> r.error == AttributeError
    {
      if |args| > 0 then Ok(ExcludeIdentical(items, args)) else ExcludeBy(items, kwargs)
    }

    /** `cl.filter(**kwargs)`: per keyword pair (k, v), the elements whose
        attribute k (0 when missing) equals v. */
    function Filter(kwargs: seq<(string, int)>): (r: seq<Card>)
      reads this
      ensures forall i :: 0 <= i < |r| ==> r[i] in items && EqualMatches(r[i], kwargs) > 0
      ensures forall i :: 0 <= i < |items| && EqualMatches(items[i], kwargs) > 0 ==> items[i] in r
    {
      FilterBy(items, kwargs)
    }
  }

  /** How a slice bound is resolved for a list of length n: a missing bound
      takes its default, a negative one counts from the end, and the result
      is clamped to [0, n]. */
  function SliceBound(b: Option<int>, default: nat, n: nat): (i: nat)
    requires default <= n
    ensures i <= n
    ensures b.None? ==> i == default
    ensures b.Some? && 0 <= b.value <= n ==> i == b.value
    ensures b.Some? && b.value > n ==> i == n
    ensures b.Some? && b.value < 0 <= n + b.value ==> i == n + b.value
    ensures b.Some? && n + b.value < 0 ==> i == 0
  {
    match b
    case None => default
    case Some(k) =>
      if k < 0 then (if k + n < 0 then 0 else k + n)
      else if k > n then n
      else k
  }

  // ---------------------------------------------------------------------
  // Properties relating the operations
  // ---------------------------------------------------------------------

  /** index and item are inverse: the position index finds holds x, from the
      front and (as a negative key) from the back. */
  lemma IndexItemRoundTrip(cl: CardList, x: Card)
    requires cl.Includes(x)
    ensures cl.Index(x).Ok?
    ensures cl.Item(cl.Index(x).value) == Ok(x)
    ensures cl.Item(cl.Index(x).value - |cl.items|) == Ok(x)
  {
  }

  /** Identity implies equality for an equality that is reflexive on x:
      `x in cl` implies `cl.contains(x)`. */
  lemma IncludesImpliesContains(cl: CardList, x: Card, eq: (Card, Card) -> bool)
    requires eq(x, x)
    ensures cl.Includes(x) ==> cl.Contains(x, eq)
  {
  }

  /** exclude with one positional argument a returns exactly the elements
      that are not a, in their original order. */
  lemma ExcludeSingle(cl: CardList, a: Card)
    ensures cl.Exclude([a], []) == Ok(Select(cl.items, NotIdentical(a)))
    ensures Subseq(cl.Exclude([a], []).value, cl.items)
    ensures forall e :: multiset(cl.Exclude([a], []).value)[e] == if e == a then 0 else multiset(cl.items)[e]
  {
    ExcludeOne(cl.items, a);
    SelectSubseq(cl.items, NotIdentical(a));
    forall e ensures multiset(Select(cl.items, NotIdentical(a)))[e] == if e == a then 0 else multiset(cl.items)[e] {
      SelectCount(cl.items, NotIdentical(a), e);
    }
  }

  /** filter and exclude with the single keyword k=v split the list: filter
      keeps the elements whose attribute k is v, exclude the others, each
      in the original order. */
  lemma FilterExcludePartition(cl: CardList, k: string, v: int)
    requires AllHave(cl.items, k)
    ensures cl.Exclude([], [(k, v)]).Ok?
    ensures Subseq(cl.Filter([(k, v)]), cl.items)
    ensures Subseq(cl.Exclude([], [(k, v)]).value, cl.items)
    ensures multiset(cl.Filter([(k, v)])) + multiset(cl.Exclude([], [(k, v)]).value) == multiset(cl.items)
  {
    var s := cl.items;
    var kw := [(k, v)];
    assert kw[0] == (k, v) && kw[1..] == [];
    var keep: seq<Card> := Select(s, AttrEquals(k, v));
    var drop: seq<Card> := Select(s, AttrDiffers(k, v));
    assert FilterBy(s, kw) == keep + FilterBy(s, kw[1..]);
    assert keep + [] == keep && drop + [] == drop;
    assert cl.Filter([(k, v)]) == keep;
    assert ExcludeBy(s, kw[1..]) == Ok([]);
    assert cl.Exclude([], [(k, v)]) == Ok(drop);
    SelectSubseq(s, AttrEquals(k, v));
    SelectSubseq(s, AttrDiffers(k, v));
    SelectSplits(s, k, v);
  }

  /** filter with the single keyword k=v is the order-preserving selection
      of the elements whose attribute k (0 when missing) is v, whether or
      not every element has k. */
  lemma FilterOrder(cl: CardList, k: string, v: int)
    ensures cl.Filter([(k, v)]) == Select(cl.items, AttrEquals(k, v))
    ensures Subseq(cl.Filter([(k, v)]), cl.items)
  {
    var kw := [(k, v)];
    assert kw[0] == (k, v) && kw[1..] == [];
    assert FilterBy(cl.items, kw) == Select(cl.items, AttrEquals(k, v)) + FilterBy(cl.items, kw[1..]);
    SelectSubseq(cl.items, AttrEquals(k, v));
  }

  /** Every element that has attribute k passes exactly one of the tests
      getattr(e, k, 0) == v and getattr(e, k) != v. */
  lemma {:induction false} SelectSplits(s: seq<Card>, k: string, v: int)
    requires AllHave(s, k)
    ensures multiset(Select(s, AttrEquals(k, v))) + multiset(Select(s, AttrDiffers(k, v))) == multiset(s)
  {
    if s != [] {
      SelectSplits(s[1..], k, v);
      assert s == [s[0]] + s[1..];
    }
  }

  /** filter treats a missing attribute as 0: an element without attribute k
      is kept by filter(k=0) and dropped by filter(k=v) for any other v. */
  lemma FilterMissingIsZero(cl: CardList, e: Card, k: string, v: int)
    requires e in cl.items && k !in e.attrs
    ensures e in cl.Filter([(k, v)]) <==> v == 0
  {
    var kw := [(k, v)];
    assert kw[0] == (k, v) && kw[1..] == [];
    assert EqualMatches(e, kw) == (if v == 0 then 1 else 0) + EqualMatches(e, kw[1..]);
    FilterByCount(cl.items, kw, e, multiset(cl.items)[e]);
    assert multiset(cl.items)[e] > 0;
  }

  /** Slicing at any k and concatenating gives the list back: s[:k] + s[k:] == s. */
  lemma SliceSplit(cl: CardList, k: int)
    ensures cl.Slice(None, Some(k)) + cl.Slice(Some(k), None) == cl.items
  {
    var n := |cl.items|;
    var c := SliceBound(Some(k), 0, n);
    assert cl.items == cl.items[..c] + cl.items[c..];
  }

  /** Slicing agrees with indexing: for a key k in range, positive or
      negative, the slice from k on starts with the element cl[k] and runs
      to the end of the list. */
  lemma SliceFromItem(cl: CardList, k: int)
    requires -|cl.items| <= k < |cl.items|
    ensures cl.Slice(Some(k), None) != []
    ensures cl.Slice(Some(k), None)[0] == cl.Item(k).value
    ensures |cl.Slice(Some(k), None)| == (if k >= 0 then |cl.items| - k else -k)
  {
  }

  /** The full slice s[:] copies every element. */
  lemma SliceCopy(cl: CardList)
    ensures cl.Slice(None, None) == cl.items
  {
  }
}
