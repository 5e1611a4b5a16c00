/**
 * The generated on-ramp and off-ramp support matrices against the counts advertised beside them.
 * Models buildOnrampMatrix, buildOfframpMatrix and pairCount
 * (apps/sdp-api/scripts/discover-ramp-rails.ts).
 */
module RampMatrix {
  import opened Sequences
  import opened TextOrder

  datatype Rail = Sol | Usdc | Usdt | Usdg | Pyusd

  /** Both matrices run over the same rails in this order. */
  const RAILS: seq<Rail> := [Sol, Usdc, Usdt, Usdg, Pyusd]

  /** One provider's support in one direction: the keys of its currency record and its crypto list. */
  datatype Provider = Provider(id: string, currencies: seq<string>, cryptos: seq<Rail>)

  datatype Row<A, B> = Row(source: A, dest: B, providers: seq<string>)

  predicate Supports(p: Provider, fiat: string, rail: Rail) {
    fiat in p.currencies && rail in p.cryptos
  }

  function AllFiats(registry: seq<Provider>): set<string> {
    set p, f | p in registry && f in p.currencies :: f
  }

  /** Every provider of the registry that supports the pair, in registry order. */
  function Supporters(registry: seq<Provider>, fiat: string, rail: Rail): seq<string> {
    if registry == [] then []
    else
      var last := registry[|registry| - 1];
      Supporters(registry[..|registry| - 1], fiat, rail) + if Supports(last, fiat, rail) then [last.id] else []
  }

  // ------------------------------------------------- rows over a grid

  function Block<A, B>(a: A, inner: seq<B>): seq<(A, B)> {
    if inner == [] then [] else Block(a, inner[..|inner| - 1]) + [(a, inner[|inner| - 1])]
  }

  function Pairs<A, B>(outer: seq<A>, inner: seq<B>): seq<(A, B)> {
    if outer == [] then [] else Pairs(outer[..|outer| - 1], inner) + Block(outer[|outer| - 1], inner)
  }

  function RowFor<A, B>(pair: (A, B), support: (A, B) -> seq<string>): seq<Row<A, B>> {
    var providers := support(pair.0, pair.1);
    if providers == [] then [] else [Row(pair.0, pair.1, providers)]
  }

  function RowsFor<A, B>(pairs: seq<(A, B)>, support: (A, B) -> seq<string>): seq<Row<A, B>> {
    if pairs == [] then [] else RowsFor(pairs[..|pairs| - 1], support) + RowFor(pairs[|pairs| - 1], support)
  }

  function OnrampRows(registry: seq<Provider>): seq<Row<string, Rail>> {
    RowsFor(Pairs(Sorted(AllFiats(registry)), RAILS), (f, r) => Supporters(registry, f, r))
  }

  function OfframpRows(registry: seq<Provider>): seq<Row<Rail, string>> {
    RowsFor(Pairs(RAILS, Sorted(AllFiats(registry))), (r, f) => Supporters(registry, f, r))
  }

  // ------------------------------------------------------ the builders

  method CollectFiats(registry: seq<Provider>) returns (fiats: set<string>)
    ensures fiats == AllFiats(registry)
  {
    fiats := {};
    for i := 0 to |registry|
      invariant fiats == AllFiats(registry[..i])
    {
      var p := registry[i];
      for j := 0 to |p.currencies|
        invariant fiats == AllFiats(registry[..i]) + set f | f in p.currencies[..j]
      {
        fiats := fiats + {p.currencies[j]};
        assert p.currencies[..j + 1] == p.currencies[..j] + [p.currencies[j]];
      }
      assert p.currencies[..|p.currencies|] == p.currencies;
      assert registry[..i + 1] == registry[..i] + [p];
    }
    assert registry[..|registry|] == registry;
  }

  method CollectSupporters(registry: seq<Provider>, fiat: string, rail: Rail) returns (providers: seq<string>)
    ensures providers == Supporters(registry, fiat, rail)
  {
    providers := [];
    for i := 0 to |registry|
      invariant providers == Supporters(registry[..i], fiat, rail)
    {
      if Supports(registry[i], fiat, rail) {
        providers := providers + [registry[i].id];
      }
      assert registry[..i + 1][..i] == registry[..i];
    }
    assert registry[..|registry|] == registry;
  }

  lemma {:induction false} Extend<A, B>(pairs: seq<(A, B)>, pair: (A, B), support: (A, B) -> seq<string>)
    ensures RowsFor(pairs + [pair], support) == RowsFor(pairs, support) + RowFor(pair, support)
  {
    assert (pairs + [pair])[..|pairs|] == pairs;
  }

  lemma NextInner<A, B>(a: A, inner: seq<B>, j: nat)
    requires j < |inner|
    ensures Block(a, inner[..j + 1]) == Block(a, inner[..j]) + [(a, inner[j])]
  {
    assert inner[..j + 1][..j] == inner[..j];
  }

  lemma {:induction false} NextOuter<A, B>(outer: seq<A>, inner: seq<B>, i: nat)
    requires i < |outer|
    ensures Pairs(outer[..i + 1], inner) == Pairs(outer[..i], inner) + Block(outer[i], inner)
  {
    assert outer[..i + 1][..i] == outer[..i];
  }

  /** One more column: at most one row is appended. */
  lemma {:induction false} NextPair<A, B>(
    done: seq<(A, B)>, a: A, inner: seq<B>, j: nat, support: (A, B) -> seq<string>)
    requires j < |inner|
    ensures RowsFor(done + Block(a, inner[..j + 1]), support)
            == RowsFor(done + Block(a, inner[..j]), support) + RowFor((a, inner[j]), support)
  {
    NextInner(a, inner, j);
    assert done + Block(a, inner[..j + 1]) == done + Block(a, inner[..j]) + [(a, inner[j])];
    Extend(done + Block(a, inner[..j]), (a, inner[j]), support);
  }

  method AppendFiatRows(registry: seq<Provider>, fiat: string, rails: seq<Rail>, done: seq<Row<string, Rail>>,
                        ghost pairs: seq<(string, Rail)>)
      returns (rows: seq<Row<string, Rail>>)
    requires done == RowsFor(pairs, (f, r) => Supporters(registry, f, r))
    ensures rows == RowsFor(pairs + Block(fiat, rails), (f, r) => Supporters(registry, f, r))
  {
    ghost var support := (f, r) => Supporters(registry, f, r);
    rows := done;
    assert pairs + [] == pairs;
    for j := 0 to |rails|
      invariant rows == RowsFor(pairs + Block(fiat, rails[..j]), support)
    {
      var providers := CollectSupporters(registry, fiat, rails[j]);
      NextPair(pairs, fiat, rails, j, support);
      if |providers| > 0 {
        rows := rows + [Row(fiat, rails[j], providers)];
      }
    }
    assert rails[..|rails|] == rails;
  }

  method BuildOnrampMatrix(registry: seq<Provider>) returns (rows: seq<Row<string, Rail>>)
    ensures rows == OnrampRows(registry)
  {
    var allFiats := CollectFiats(registry);
    var fiats := Sorted(allFiats);
    rows := [];
    for i := 0 to |fiats|
      invariant rows == RowsFor(Pairs(fiats[..i], RAILS), (f, r) => Supporters(registry, f, r))
    {
      rows := AppendFiatRows(registry, fiats[i], RAILS, rows, Pairs(fiats[..i], RAILS));
      NextOuter(fiats, RAILS, i);
    }
    assert fiats[..|fiats|] == fiats;
  }

  method AppendRailRows(registry: seq<Provider>, rail: Rail, fiats: seq<string>, done: seq<Row<Rail, string>>,
                        ghost pairs: seq<(Rail, string)>)
      returns (rows: seq<Row<Rail, string>>)
    requires done == RowsFor(pairs, (r, f) => Supporters(registry, f, r))
    ensures rows == RowsFor(pairs + Block(rail, fiats), (r, f) => Supporters(registry, f, r))
  {
    ghost var support := (r, f) => Supporters(registry, f, r);
    rows := done;
    assert pairs + [] == pairs;
    for j := 0 to |fiats|
      invariant rows == RowsFor(pairs + Block(rail, fiats[..j]), support)
    {
      var providers := CollectSupporters(registry, fiats[j], rail);
      NextPair(pairs, rail, fiats, j, support);
      if |providers| > 0 {
        rows := rows + [Row(rail, fiats[j], providers)];
      }
    }
    assert fiats[..|fiats|] == fiats;
  }

  method BuildOfframpMatrix(registry: seq<Provider>) returns (rows: seq<Row<Rail, string>>)
    ensures rows == OfframpRows(registry)
  {
    var allFiats := CollectFiats(registry);
    var fiats := Sorted(allFiats);
    rows := [];
    for i := 0 to |RAILS|
      invariant rows == RowsFor(Pairs(RAILS[..i], fiats), (r, f) => Supporters(registry, f, r))
    {
      rows := AppendRailRows(registry, RAILS[i], fiats, rows, Pairs(RAILS[..i], fiats));
      NextOuter(RAILS, fiats, i);
    }
    assert RAILS[..|RAILS|] == RAILS;
  }

  // --------------------------------------------------- which rows exist

  lemma {:induction false} BlockMembers<A, B>(a: A, inner: seq<B>)
    ensures forall x :: x in Block(a, inner) <==> x.0 == a && x.1 in inner
  {
    if inner != [] {
      BlockMembers(a, inner[..|inner| - 1]);
      assert inner == inner[..|inner| - 1] + [inner[|inner| - 1]];
    }
  }

  lemma {:induction false} PairsMembers<A, B>(outer: seq<A>, inner: seq<B>)
    ensures forall x :: x in Pairs(outer, inner) <==> x.0 in outer && x.1 in inner
  {
    if outer != [] {
      PairsMembers(outer[..|outer| - 1], inner);
      BlockMembers(outer[|outer| - 1], inner);
      assert outer == outer[..|outer| - 1] + [outer[|outer| - 1]];
    }
  }

  lemma {:induction false} RowsMember<A, B>(pairs: seq<(A, B)>, support: (A, B) -> seq<string>, r: Row<A, B>)
    ensures r in RowsFor(pairs, support)
            <==> (r.source, r.dest) in pairs && r.providers == support(r.source, r.dest) != []
  {
    if pairs != [] {
      var rest := pairs[..|pairs| - 1];
      RowsMember(rest, support, r);
      assert pairs == rest + [pairs[|pairs| - 1]];
    }
  }

  lemma {:induction false} SupportersAre(registry: seq<Provider>, fiat: string, rail: Rail)
    ensures forall id :: id in Supporters(registry, fiat, rail)
                         <==> exists p :: p in registry && p.id == id && Supports(p, fiat, rail)
  {
    if registry != [] {
      var rest, last := registry[..|registry| - 1], registry[|registry| - 1];
      SupportersAre(rest, fiat, rail);
      assert registry == rest + [last];
      forall id ensures id in Supporters(registry, fiat, rail)
                        <==> exists p :: p in registry && p.id == id && Supports(p, fiat, rail) {
        if id in Supporters(rest, fiat, rail) {
          var p :| p in rest && p.id == id && Supports(p, fiat, rail);
          assert p in registry;
        } else if Supports(last, fiat, rail) && id == last.id {
          assert last in registry;
        }
      }
    }
  }

  /** Supporters are listed in registry order: those of a longer registry continue those of a shorter one. */
  lemma {:induction false} SupportersInOrder(a: seq<Provider>, b: seq<Provider>, fiat: string, rail: Rail)
    ensures Supporters(a + b, fiat, rail) == Supporters(a, fiat, rail) + Supporters(b, fiat, rail)
  {
    if b == [] {
      assert a + b == a;
    } else {
      SupportersInOrder(a, b[..|b| - 1], fiat, rail);
      assert (a + b)[..|a + b| - 1] == a + b[..|b| - 1];
    }
  }

  lemma {:induction false} Supported(registry: seq<Provider>, fiat: string, rail: Rail)
    ensures Supporters(registry, fiat, rail) != [] <==> exists p :: p in registry && Supports(p, fiat, rail)
    ensures Supporters(registry, fiat, rail) != [] ==> fiat in AllFiats(registry)
  {
    SupportersAre(registry, fiat, rail);
    if Supporters(registry, fiat, rail) != [] {
      var id := Supporters(registry, fiat, rail)[0];
      assert id in Supporters(registry, fiat, rail);
      var p :| p in registry && p.id == id && Supports(p, fiat, rail);
      assert fiat in p.currencies;
    }
    if p :| p in registry && Supports(p, fiat, rail) {
      assert p.id in Supporters(registry, fiat, rail);
    }
  }

  lemma AllRails(rail: Rail)
    ensures rail in RAILS
  {
    assert RAILS[0] == Sol && RAILS[1] == Usdc && RAILS[2] == Usdt && RAILS[3] == Usdg && RAILS[4] == Pyusd;
  }

  /** A pair has a row exactly when some provider supports it, and the row lists exactly its supporters. */
  lemma {:induction false} OnrampRowExists(registry: seq<Provider>, row: Row<string, Rail>)
    ensures row in OnrampRows(registry)
            <==> && row.providers == Supporters(registry, row.source, row.dest)
                 && exists p :: p in registry && Supports(p, row.source, row.dest)
  {
    RowsMember(Pairs(Sorted(AllFiats(registry)), RAILS), (f, r) => Supporters(registry, f, r), row);
    PairsMembers(Sorted(AllFiats(registry)), RAILS);
    SortedLists(AllFiats(registry));
    Supported(registry, row.source, row.dest);
    AllRails(row.dest);
    assert (row.source, row.dest).0 == row.source && (row.source, row.dest).1 == row.dest;
  }

  lemma {:induction false} OfframpRowExists(registry: seq<Provider>, row: Row<Rail, string>)
    ensures row in OfframpRows(registry)
            <==> && row.providers == Supporters(registry, row.dest, row.source)
                 && exists p :: p in registry && Supports(p, row.dest, row.source)
  {
    RowsMember(Pairs(RAILS, Sorted(AllFiats(registry))), (r, f) => Supporters(registry, f, r), row);
    PairsMembers(RAILS, Sorted(AllFiats(registry)));
    SortedLists(AllFiats(registry));
    Supported(registry, row.dest, row.source);
    AllRails(row.source);
    assert (row.source, row.dest).0 == row.source && (row.source, row.dest).1 == row.dest;
  }

  // -------------------------------------------------------- their order

  predicate RailBefore(a: Rail, b: Rail) {
    Rank(a) < Rank(b)
  }

  function Rank(r: Rail): nat {
    match r
    case Sol => 0
    case Usdc => 1
    case Usdt => 2
    case Usdg => 3
    case Pyusd => 4
  }

  ghost predicate Increasing<T(!new)>(s: seq<T>, before: (T, T) -> bool) {
    forall i, j :: 0 <= i < j < |s| ==> before(s[i], s[j])
  }

  predicate PairBefore<A(==), B>(x: (A, B), y: (A, B), beforeA: (A, A) -> bool, beforeB: (B, B) -> bool) {
    beforeA(x.0, y.0) || (x.0 == y.0 && beforeB(x.1, y.1))
  }

  ghost predicate PairsIncrease<A, B>(s: seq<(A, B)>, beforeA: (A, A) -> bool, beforeB: (B, B) -> bool) {
    forall i, j :: 0 <= i < j < |s| ==> PairBefore(s[i], s[j], beforeA, beforeB)
  }

  ghost predicate RowsIncrease<A, B>(s: seq<Row<A, B>>, beforeA: (A, A) -> bool, beforeB: (B, B) -> bool) {
    forall i, j :: 0 <= i < j < |s|
      ==> PairBefore((s[i].source, s[i].dest), (s[j].source, s[j].dest), beforeA, beforeB)
  }

  lemma {:induction false} BlockIncreases<A(!new), B(!new)>(
    a: A, inner: seq<B>, beforeA: (A, A) -> bool, beforeB: (B, B) -> bool)
    requires Increasing(inner, beforeB)
    ensures PairsIncrease(Block(a, inner), beforeA, beforeB)
  {
    if inner != [] {
      var rest, last := inner[..|inner| - 1], inner[|inner| - 1];
      BlockIncreases(a, rest, beforeA, beforeB);
      BlockMembers(a, rest);
      forall x | x in Block(a, rest) ensures PairBefore(x, (a, last), beforeA, beforeB) {
        var i :| 0 <= i < |rest| && rest[i] == x.1;
        assert beforeB(inner[i], inner[|inner| - 1]);
      }
    }
  }

  lemma JoinIncreases<A, B>(s: seq<(A, B)>, t: seq<(A, B)>, beforeA: (A, A) -> bool, beforeB: (B, B) -> bool)
    requires PairsIncrease(s, beforeA, beforeB) && PairsIncrease(t, beforeA, beforeB)
    requires forall x, y :: x in s && y in t ==> PairBefore(x, y, beforeA, beforeB)
    ensures PairsIncrease(s + t, beforeA, beforeB)
  {
  }

  lemma {:induction false} PairsAreIncreasing<A(!new), B(!new)>(
    outer: seq<A>, inner: seq<B>, beforeA: (A, A) -> bool, beforeB: (B, B) -> bool)
    requires Increasing(outer, beforeA) && Increasing(inner, beforeB)
    ensures PairsIncrease(Pairs(outer, inner), beforeA, beforeB)
  {
    if outer != [] {
      var rest, last := outer[..|outer| - 1], outer[|outer| - 1];
      PairsAreIncreasing(rest, inner, beforeA, beforeB);
      BlockIncreases(last, inner, beforeA, beforeB);
      PairsMembers(rest, inner);
      BlockMembers(last, inner);
      forall x, y | x in Pairs(rest, inner) && y in Block(last, inner) ensures PairBefore(x, y, beforeA, beforeB) {
        var i :| 0 <= i < |rest| && rest[i] == x.0;
        assert beforeA(outer[i], outer[|outer| - 1]);
      }
      JoinIncreases(Pairs(rest, inner), Block(last, inner), beforeA, beforeB);
    }
  }

  lemma {:induction false} RowsKeepOrder<A, B>(
    pairs: seq<(A, B)>, support: (A, B) -> seq<string>, beforeA: (A, A) -> bool, beforeB: (B, B) -> bool)
    requires PairsIncrease(pairs, beforeA, beforeB)
    ensures RowsIncrease(RowsFor(pairs, support), beforeA, beforeB)
  {
    if pairs != [] {
      var rest, last := pairs[..|pairs| - 1], pairs[|pairs| - 1];
      RowsKeepOrder(rest, support, beforeA, beforeB);
      forall r | r in RowsFor(rest, support) ensures PairBefore((r.source, r.dest), last, beforeA, beforeB) {
        RowsMember(rest, support, r);
        var i :| 0 <= i < |rest| && rest[i] == (r.source, r.dest);
        assert PairBefore(pairs[i], pairs[|pairs| - 1], beforeA, beforeB);
      }
    }
  }

  lemma RailsIncrease()
    ensures Increasing(RAILS, RailBefore)
  {
  }

  lemma {:induction false} FiatsIncrease(fiats: set<string>)
    ensures Increasing(Sorted(fiats), Before)
  {
    SortedLists(fiats);
  }

  ghost predicate OneRowPerPair<A, B>(s: seq<Row<A, B>>) {
    forall i, j :: 0 <= i < j < |s| ==> s[i].source != s[j].source || s[i].dest != s[j].dest
  }

  /** Rows come by fiat, then by rail, and no pair has two. */
  lemma OnrampIsSorted(registry: seq<Provider>)
    ensures RowsIncrease(OnrampRows(registry), Before, RailBefore) && OneRowPerPair(OnrampRows(registry))
  {
    var fiats := Sorted(AllFiats(registry));
    FiatsIncrease(AllFiats(registry));
    RailsIncrease();
    PairsAreIncreasing(fiats, RAILS, Before, RailBefore);
    var rows := OnrampRows(registry);
    RowsKeepOrder(Pairs(fiats, RAILS), (f, r) => Supporters(registry, f, r), Before, RailBefore);
    forall i, j | 0 <= i < j < |rows| ensures rows[i].source != rows[j].source || rows[i].dest != rows[j].dest {
      Irreflexive(rows[i].source);
      assert PairBefore((rows[i].source, rows[i].dest), (rows[j].source, rows[j].dest), Before, RailBefore);
    }
  }

  /** Rows come by rail, then by fiat, and no pair has two. */
  lemma OfframpIsSorted(registry: seq<Provider>)
    ensures RowsIncrease(OfframpRows(registry), RailBefore, Before) && OneRowPerPair(OfframpRows(registry))
  {
    var fiats := Sorted(AllFiats(registry));
    FiatsIncrease(AllFiats(registry));
    RailsIncrease();
    PairsAreIncreasing(RAILS, fiats, RailBefore, Before);
    var rows := OfframpRows(registry);
    RowsKeepOrder(Pairs(RAILS, fiats), (r, f) => Supporters(registry, f, r), RailBefore, Before);
    forall i, j | 0 <= i < j < |rows| ensures rows[i].source != rows[j].source || rows[i].dest != rows[j].dest {
      Irreflexive(rows[i].dest);
      assert PairBefore((rows[i].source, rows[i].dest), (rows[j].source, rows[j].dest), RailBefore, Before);
    }
  }

  // ---------------------------------------------- the advertised counts

  /** The count printed for a provider in one direction. */
  function PairCount(p: Provider): nat {
    |p.currencies| * |p.cryptos|
  }

  /** The number of rows that name a provider. */
  function Naming<A, B>(rows: seq<Row<A, B>>, id: string): nat {
    if rows == [] then 0
    else Naming(rows[..|rows| - 1], id) + if id in rows[|rows| - 1].providers then 1 else 0
  }

  /** The number of positions of `s` whose element occurs in `t`. */
  function CountIn<T(==)>(s: seq<T>, t: seq<T>): nat {
    if s == [] then 0 else CountIn(s[..|s| - 1], t) + if s[|s| - 1] in t then 1 else 0
  }

  ghost predicate DistinctIds(registry: seq<Provider>) {
    forall i, j :: 0 <= i < j < |registry| ==> registry[i].id != registry[j].id
  }

  lemma {:induction false} NamingJoin<A, B>(s: seq<Row<A, B>>, t: seq<Row<A, B>>, id: string)
    ensures Naming(s + t, id) == Naming(s, id) + Naming(t, id)
  {
    if t == [] {
      assert s + t == s;
    } else {
      NamingJoin(s, t[..|t| - 1], id);
      assert (s + t)[..|s + t| - 1] == s + t[..|t| - 1];
    }
  }

  lemma {:induction false} RowsJoin<A, B>(s: seq<(A, B)>, t: seq<(A, B)>, support: (A, B) -> seq<string>)
    ensures RowsFor(s + t, support) == RowsFor(s, support) + RowsFor(t, support)
  {
    if t == [] {
      assert s + t == s;
    } else {
      var u, x := t[..|t| - 1], t[|t| - 1];
      calc {
        RowsFor(s + t, support);
        { assert s + t == s + u + [x]; Extend(s + u, x, support); }
        RowsFor(s + u, support) + RowFor(x, support);
        { RowsJoin(s, u, support); }
        RowsFor(s, support) + RowsFor(u, support) + RowFor(x, support);
        { assert t == u + [x]; Extend(u, x, support); }
        RowsFor(s, support) + RowsFor(t, support);
      }
    }
  }

  lemma {:induction false} NamingRows<A, B>(s: seq<(A, B)>, t: seq<(A, B)>, support: (A, B) -> seq<string>, id: string)
    ensures Naming(RowsFor(s + t, support), id) == Naming(RowsFor(s, support), id) + Naming(RowsFor(t, support), id)
  {
    RowsJoin(s, t, support);
    NamingJoin(RowsFor(s, support), RowsFor(t, support), id);
  }

  /** A provider is listed for a pair exactly when it offers both parts. */
  ghost predicate Offers<A(!new), B(!new)>(
    support: (A, B) -> seq<string>, id: string, offeredA: seq<A>, offeredB: seq<B>)
  {
    forall a, b :: id in support(a, b) <==> a in offeredA && b in offeredB
  }

  lemma {:induction false} BlockNaming<A(!new), B(!new)>(
    a: A, inner: seq<B>, support: (A, B) -> seq<string>, id: string, offeredA: seq<A>, offeredB: seq<B>)
    requires Offers(support, id, offeredA, offeredB)
    ensures Naming(RowsFor(Block(a, inner), support), id) == if a in offeredA then CountIn(inner, offeredB) else 0
  {
    if inner != [] {
      var rest, pair := inner[..|inner| - 1], (a, inner[|inner| - 1]);
      BlockNaming(a, rest, support, id, offeredA, offeredB);
      Extend(Block(a, rest), pair, support);
      NamingJoin(RowsFor(Block(a, rest), support), RowFor(pair, support), id);
      OneRowNaming(pair, support, id);
      assert id in support(a, pair.1) <==> a in offeredA && pair.1 in offeredB;
    }
  }

  lemma {:induction false} OneRowNaming<A, B>(pair: (A, B), support: (A, B) -> seq<string>, id: string)
    ensures Naming(RowFor(pair, support), id) == if id in support(pair.0, pair.1) then 1 else 0
  {
    var rows := RowFor(pair, support);
    assert rows != [] ==> rows[..|rows| - 1] == [];
  }

  lemma GridGrows<A(!new), B(!new)>(
    outer: seq<A>, inner: seq<B>, support: (A, B) -> seq<string>, id: string, offeredA: seq<A>, offeredB: seq<B>)
    requires outer != [] && Offers(support, id, offeredA, offeredB)
    ensures var rest, last := outer[..|outer| - 1], outer[|outer| - 1];
            Naming(RowsFor(Pairs(outer, inner), support), id)
            == Naming(RowsFor(Pairs(rest, inner), support), id)
               + if last in offeredA then CountIn(inner, offeredB) else 0
  {
    var rest, last := outer[..|outer| - 1], outer[|outer| - 1];
    BlockNaming(last, inner, support, id, offeredA, offeredB);
    NamingRows(Pairs(rest, inner), Block(last, inner), support, id);
  }

  /** `d` for every element of `s` that occurs in `t`. */
  function SumIn<T(==)>(s: seq<T>, t: seq<T>, d: nat): nat {
    if s == [] then 0 else SumIn(s[..|s| - 1], t, d) + if s[|s| - 1] in t then d else 0
  }

  lemma {:induction false} SumIsProduct<T>(s: seq<T>, t: seq<T>, d: nat)
    ensures SumIn(s, t, d) == d * CountIn(s, t)
  {
    if s != [] {
      SumIsProduct(s[..|s| - 1], t, d);
      OneMore(CountIn(s[..|s| - 1], t), d, s[|s| - 1] in t);
    }
  }

  lemma OneMore(c: nat, d: nat, more: bool)
    ensures d * (c + if more then 1 else 0) == d * c + if more then d else 0
  {
  }

  lemma {:induction false} GridNaming<A(!new), B(!new)>(
    outer: seq<A>, inner: seq<B>, support: (A, B) -> seq<string>, id: string, offeredA: seq<A>, offeredB: seq<B>)
    requires Offers(support, id, offeredA, offeredB)
    ensures Naming(RowsFor(Pairs(outer, inner), support), id) == SumIn(outer, offeredA, CountIn(inner, offeredB))
  {
    if outer != [] {
      GridGrows(outer, inner, support, id, offeredA, offeredB);
      GridNaming(outer[..|outer| - 1], inner, support, id, offeredA, offeredB);
    }
  }

  lemma ShareOneMore<T>(a: set<T>, b: set<T>, x: T)
    requires x !in a
    ensures |(a + {x}) * b| == |a * b| + if x in b then 1 else 0
  {
    assert (a + {x}) * b == a * b + if x in b then {x} else {};
  }

  lemma {:induction false} CountInIsShared<T>(s: seq<T>, t: seq<T>)
    requires Distinct(s)
    ensures CountIn(s, t) == |Members(s) * Members(t)|
  {
    if s == [] {
      assert Members(s) * Members(t) == {};
    } else {
      var rest, last := s[..|s| - 1], s[|s| - 1];
      CountInIsShared(rest, t);
      MembersSplit(s);
      assert last !in rest;
      ShareOneMore(Members(rest), Members(t), last);
    }
  }

  /** Every member of `t` occurs in the duplicate-free `s`: it is counted once. */
  lemma {:induction false} CountInCovers<T>(s: seq<T>, t: seq<T>)
    requires Distinct(s) && forall x :: x in t ==> x in s
    ensures CountIn(s, t) == |Members(t)|
  {
    CountInIsShared(s, t);
    assert Members(s) * Members(t) == Members(t);
  }

  lemma {:induction false} Listed(registry: seq<Provider>, p: Provider, fiat: string, rail: Rail)
    requires DistinctIds(registry) && p in registry
    ensures p.id in Supporters(registry, fiat, rail) <==> fiat in p.currencies && rail in p.cryptos
  {
    SupportersAre(registry, fiat, rail);
    if p.id in Supporters(registry, fiat, rail) {
      var q :| q in registry && q.id == p.id && Supports(q, fiat, rail);
      var i, j :| 0 <= i < |registry| && 0 <= j < |registry| && registry[i] == p && registry[j] == q;
      assert i == j;
    } else {
      assert !Supports(p, fiat, rail);
    }
  }

  lemma FiatsCounted(registry: seq<Provider>, p: Provider)
    requires p in registry && Distinct(p.currencies)
    ensures CountIn(Sorted(AllFiats(registry)), p.currencies) == |p.currencies|
  {
    var fiats := Sorted(AllFiats(registry));
    SortedLists(AllFiats(registry));
    forall i, j | 0 <= i < j < |fiats| ensures fiats[i] != fiats[j] {
      Irreflexive(fiats[i]);
    }
    forall f | f in p.currencies ensures f in fiats {
      assert f in AllFiats(registry);
    }
    CountInCovers(fiats, p.currencies);
    MembersCount(p.currencies);
  }

  lemma {:induction false} RailsCounted(cryptos: seq<Rail>)
    ensures CountIn(RAILS, cryptos) == |Members(cryptos)|
  {
    forall r ensures r in RAILS {
      AllRails(r);
    }
    RailsIncrease();
    forall i, j | 0 <= i < j < |RAILS| ensures RAILS[i] != RAILS[j] {
      assert RailBefore(RAILS[i], RAILS[j]);
    }
    CountInCovers(RAILS, cryptos);
  }

  lemma SameProduct(n: nat, a: nat, b: nat)
    ensures n * a == n * b <==> n == 0 || a == b
  {
    assert n * a - n * b == n * (a - b);
  }

  lemma Commutes(a: nat, b: nat)
    ensures a * b == b * a
  {
  }

  lemma AdvertisedExactlyWhen(p: Provider)
    ensures |p.currencies| * |Members(p.cryptos)| == PairCount(p) <==> p.currencies == [] || Distinct(p.cryptos)
  {
    MembersCount(p.cryptos);
    SameProduct(|p.currencies|, |Members(p.cryptos)|, |p.cryptos|);
  }

  lemma OnrampNaming(registry: seq<Provider>, p: Provider)
    requires DistinctIds(registry) && p in registry && Distinct(p.currencies)
    ensures Naming(OnrampRows(registry), p.id) == |Members(p.cryptos)| * |p.currencies|
  {
    var support := (f, r) => Supporters(registry, f, r);
    forall f, r ensures p.id in support(f, r) <==> f in p.currencies && r in p.cryptos {
      Listed(registry, p, f, r);
    }
    GridNaming(Sorted(AllFiats(registry)), RAILS, support, p.id, p.currencies, p.cryptos);
    SumIsProduct(Sorted(AllFiats(registry)), p.currencies, CountIn(RAILS, p.cryptos));
    FiatsCounted(registry, p);
    RailsCounted(p.cryptos);
  }

  lemma OfframpNaming(registry: seq<Provider>, p: Provider)
    requires DistinctIds(registry) && p in registry && Distinct(p.currencies)
    ensures Naming(OfframpRows(registry), p.id) == |p.currencies| * |Members(p.cryptos)|
  {
    var support := (r, f) => Supporters(registry, f, r);
    forall r, f ensures p.id in support(r, f) <==> r in p.cryptos && f in p.currencies {
      Listed(registry, p, f, r);
    }
    GridNaming(RAILS, Sorted(AllFiats(registry)), support, p.id, p.cryptos, p.currencies);
    SumIsProduct(RAILS, p.cryptos, CountIn(Sorted(AllFiats(registry)), p.currencies));
    FiatsCounted(registry, p);
    RailsCounted(p.cryptos);
  }

  /**
   * The number of on-ramp rows naming a provider. It is the advertised count exactly when the
   * provider has no currency or lists no crypto rail twice.
   */
  lemma OnrampCountIsAdvertised(registry: seq<Provider>, p: Provider)
    requires DistinctIds(registry) && p in registry && Distinct(p.currencies)
    ensures Naming(OnrampRows(registry), p.id) == |p.currencies| * |Members(p.cryptos)|
    ensures Naming(OnrampRows(registry), p.id) == PairCount(p) <==> p.currencies == [] || Distinct(p.cryptos)
  {
    OnrampNaming(registry, p);
    Commutes(|Members(p.cryptos)|, |p.currencies|);
    AdvertisedExactlyWhen(p);
  }

  /** The same holds of the off-ramp matrix, although its rows come in the other order. */
  lemma OfframpCountIsAdvertised(registry: seq<Provider>, p: Provider)
    requires DistinctIds(registry) && p in registry && Distinct(p.currencies)
    ensures Naming(OfframpRows(registry), p.id) == |p.currencies| * |Members(p.cryptos)|
    ensures Naming(OfframpRows(registry), p.id) == PairCount(p) <==> p.currencies == [] || Distinct(p.cryptos)
  {
    OfframpNaming(registry, p);
    AdvertisedExactlyWhen(p);
  }
}
