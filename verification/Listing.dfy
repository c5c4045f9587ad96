/** The index list: aliases, hiding, sorting, pages (src/handlers/indices.rs,
    src/models/index.rs), and the page arithmetic of the search (src/handlers/search.rs). */
module Listing {
  import opened Decimals
  import opened Sizes
  import opened StableSort

  datatype Index = Index(name: string, health: string, docsCount: string, storeSize: string, aliases: seq<string>)
  datatype Alias = Alias(alias: string, index: string)
  datatype Query = Query(page: nat, perPage: nat, sortBy: string, sortOrder: string, hideInternal: bool)

  // ----- aliases and hiding

  /** The aliases of one index, in the order they were reported. */
  function AliasesOf(aliases: seq<Alias>, name: string): seq<string> {
    if aliases == [] then []
    else
      var last := aliases[|aliases| - 1];
      AliasesOf(aliases[..|aliases| - 1], name) + if last.index == name then [last.alias] else []
  }

  /** An index without reported aliases keeps what it had. */
  function Labelled(i: Index, aliases: seq<Alias>): Index {
    var mine := AliasesOf(aliases, i.name);
    if mine == [] then i else i.(aliases := mine)
  }

  function LabelledAll(indices: seq<Index>, aliases: seq<Alias>): (r: seq<Index>)
    ensures |r| == |indices|
  {
    if indices == [] then []
    else LabelledAll(indices[..|indices| - 1], aliases) + [Labelled(indices[|indices| - 1], aliases)]
  }

  predicate Internal(i: Index) {
    i.name != "" && i.name[0] == '.'
  }

  function Visible(indices: seq<Index>, hideInternal: bool): seq<Index> {
    if indices == [] then []
    else
      var last := indices[|indices| - 1];
      Visible(indices[..|indices| - 1], hideInternal) + if hideInternal && Internal(last) then [] else [last]
  }

  // ----- sorting

  /** `str::parse::<u64>().unwrap_or(0)`. */
  function ParseU64(s: string): u64 {
    var digits := if s != "" && s[0] == '+' then s[1..] else s;
    if digits != "" && AllDigits(digits) && Value(digits) <= U64_MAX then Value(digits) else 0
  }

  datatype Order = ByName | ByHealth | ByDocs | BySize | Unsorted

  function OrderOf(sortBy: string): Order {
    if sortBy == "index" then ByName else if sortBy == "health" then ByHealth
    else if sortBy == "docs_count" then ByDocs else if sortBy == "store_size" then BySize else Unsorted
  }

  function KeyOf(order: Order, i: Index): Key {
    match order
    case ByName => Text(i.name)
    case ByHealth => Text(i.health)
    case ByDocs => Num(ParseU64(i.docsCount))
    case BySize => Num(ParsedSize(i.storeSize))
    case Unsorted => Num(0)
  }

  function WithKeys(order: Order, indices: seq<Index>): (r: seq<Keyed<Index>>)
    ensures |r| == |indices|
  {
    if indices == [] then [] else [Keyed(KeyOf(order, indices[0]), indices[0])] + WithKeys(order, indices[1..])
  }

  function Items(xs: seq<Keyed<Index>>): (r: seq<Index>)
    ensures |r| == |xs|
  {
    if xs == [] then [] else [xs[0].item] + Items(xs[1..])
  }

  function Arranged(q: Query, indices: seq<Index>): seq<Index> {
    var order := OrderOf(q.sortBy);
    if order == Unsorted then indices
    else Items(Sort(q.sortOrder == "desc", WithKeys(order, indices)))
  }

  /** All the indices the pages are cut from. */
  function Listed(q: Query, reported: seq<Index>, aliases: seq<Alias>): seq<Index> {
    Arranged(q, Visible(LabelledAll(reported, aliases), q.hideInternal))
  }

  ghost predicate KeysFit(order: Order, xs: seq<Keyed<Index>>) {
    forall x :: x in xs ==> x.key == KeyOf(order, x.item)
  }

  lemma {:induction false} WithKeysOfItems(order: Order, xs: seq<Keyed<Index>>)
    requires KeysFit(order, xs)
    ensures WithKeys(order, Items(xs)) == xs
  {
    if xs != [] {
      WithKeysOfItems(order, xs[1..]);
      var x, rest := xs[0], xs[1..];
      assert xs == [x] + rest && x in xs;
      assert Items(xs) == [x.item] + Items(rest);
      assert Items(xs)[1..] == Items(rest);
    }
  }

  lemma {:induction false} ItemsOfWithKeys(order: Order, xs: seq<Index>)
    ensures Items(WithKeys(order, xs)) == xs && KeysFit(order, WithKeys(order, xs))
  {
    if xs != [] {
      ItemsOfWithKeys(order, xs[1..]);
      assert WithKeys(order, xs)[1..] == WithKeys(order, xs[1..]) && xs == [xs[0]] + xs[1..];
    }
  }

  lemma {:induction false} InsertItems(descending: bool, x: Keyed<Index>, xs: seq<Keyed<Index>>)
    ensures multiset(Items(Insert(descending, x, xs))) == multiset{x.item} + multiset(Items(xs))
  {
    if xs == [] || Before(descending, x.key, xs[0].key) {
      assert ([x] + xs)[1..] == xs;
    } else {
      InsertItems(descending, x, xs[1..]);
      var rest := Insert(descending, x, xs[1..]);
      assert ([xs[0]] + rest)[1..] == rest;
    }
  }

  lemma {:induction false} SortItems(descending: bool, xs: seq<Keyed<Index>>)
    ensures multiset(Items(Sort(descending, xs))) == multiset(Items(xs))
  {
    if xs != [] {
      SortItems(descending, xs[1..]);
      InsertItems(descending, xs[0], Sort(descending, xs[1..]));
    }
  }

  /** The list shown is a permutation of the visible indices, in the order asked for, with
      indices of the same key as they were reported. */
  lemma ArrangedIsStableSort(q: Query, indices: seq<Index>)
    ensures multiset(Arranged(q, indices)) == multiset(indices)
    ensures var order := OrderOf(q.sortBy);
            if order == Unsorted then Arranged(q, indices) == indices
            else StablySorted(q.sortOrder == "desc", WithKeys(order, indices), WithKeys(order, Arranged(q, indices)))
  {
    var order, descending := OrderOf(q.sortBy), q.sortOrder == "desc";
    if order != Unsorted {
      var keyed := WithKeys(order, indices);
      ItemsOfWithKeys(order, indices);
      SortIsStable(descending, keyed);
      SameItems(descending, keyed);
      forall x | x in Sort(descending, keyed) ensures x.key == KeyOf(order, x.item) {
        assert x in multiset(keyed);
      }
      WithKeysOfItems(order, Sort(descending, keyed));
      SortItems(descending, keyed);
    }
  }

  // ----- the orders, on the fields themselves

  /** Whether `a` may stand before `b` in a list sorted by a column. */
  ghost predicate MayPrecede(sortBy: string, a: Index, b: Index) {
    && (sortBy == "index" ==> AtMost(a.name, b.name))
    && (sortBy == "health" ==> AtMost(a.health, b.health))
    && (sortBy == "docs_count" ==> ParseU64(a.docsCount) <= ParseU64(b.docsCount))
    && (sortBy == "store_size" ==> ParsedSize(a.storeSize) <= ParsedSize(b.storeSize))
  }

  /** Whether two indices have the same value in a column. */
  predicate Ties(sortBy: string, a: Index, b: Index) {
    && (sortBy == "index" ==> a.name == b.name)
    && (sortBy == "health" ==> a.health == b.health)
    && (sortBy == "docs_count" ==> ParseU64(a.docsCount) == ParseU64(b.docsCount))
    && (sortBy == "store_size" ==> ParsedSize(a.storeSize) == ParsedSize(b.storeSize))
  }

  /** The indices with the same value as `i`, in the order of the list. */
  function TiedWith(sortBy: string, indices: seq<Index>, i: Index): seq<Index> {
    if indices == [] then []
    else (if Ties(sortBy, indices[0], i) then [indices[0]] else []) + TiedWith(sortBy, indices[1..], i)
  }

  predicate Sortable(sortBy: string) {
    sortBy in {"index", "health", "docs_count", "store_size"}
  }

  lemma KeysFollowFields(sortBy: string, a: Index, b: Index)
    requires Sortable(sortBy)
    ensures var order := OrderOf(sortBy);
            && (Le(KeyOf(order, a), KeyOf(order, b)) <==> MayPrecede(sortBy, a, b))
            && (KeyOf(order, a) == KeyOf(order, b) <==> Ties(sortBy, a, b))
  {
    LexIsAtMost(a.name, b.name);
    LexIsAtMost(a.health, b.health);
  }

  lemma {:induction false} KeyAt(order: Order, xs: seq<Index>, i: nat)
    requires i < |xs|
    ensures WithKeys(order, xs)[i].key == KeyOf(order, xs[i])
  {
    if i > 0 { KeyAt(order, xs[1..], i - 1); }
  }

  /** The list shown is in the order of the column asked for, either way; any other column
      leaves it as it was reported. */
  lemma ShownInOrder(q: Query, indices: seq<Index>, i: nat, j: nat)
    requires i < j < |Arranged(q, indices)|
    ensures var a, b := Arranged(q, indices)[i], Arranged(q, indices)[j];
            if q.sortOrder == "desc" then MayPrecede(q.sortBy, b, a) else MayPrecede(q.sortBy, a, b)
    ensures !Sortable(q.sortBy) ==> Arranged(q, indices) == indices
  {
    if Sortable(q.sortBy) {
      var order, shown := OrderOf(q.sortBy), Arranged(q, indices);
      ArrangedIsStableSort(q, indices);
      OrderedAt(q.sortOrder == "desc", WithKeys(order, shown), i, j);
      KeyAt(order, shown, i);
      KeyAt(order, shown, j);
      KeysFollowFields(q.sortBy, shown[i], shown[j]);
      KeysFollowFields(q.sortBy, shown[j], shown[i]);
    }
  }

  lemma ItemsCons(x: Keyed<Index>, xs: seq<Keyed<Index>>)
    ensures Items([x] + xs) == [x.item] + Items(xs)
  {
    assert ([x] + xs)[1..] == xs;
  }

  lemma {:induction false} TiedItems(sortBy: string, indices: seq<Index>, i: Index)
    requires Sortable(sortBy)
    ensures TiedWith(sortBy, indices, i)
            == Items(WithKey(WithKeys(OrderOf(sortBy), indices), KeyOf(OrderOf(sortBy), i)))
  {
    if indices != [] {
      TiedItems(sortBy, indices[1..], i);
      KeysFollowFields(sortBy, indices[0], i);
      hide Ties, MayPrecede, KeyOf, Le;
      var order := OrderOf(sortBy);
      var x, k, rest := Keyed(KeyOf(order, indices[0]), indices[0]), KeyOf(order, i), WithKeys(order, indices[1..]);
      assert WithKeys(order, indices) == [x] + rest;
      WithKeyCons(x, rest, k);
      assert [] + WithKey(rest, k) == WithKey(rest, k);
      ItemsCons(x, WithKey(rest, k));
    }
  }

  /** Indices with the same value stay in the order in which they were reported. */
  lemma TiesAsReported(q: Query, indices: seq<Index>, i: Index)
    requires Sortable(q.sortBy)
    ensures TiedWith(q.sortBy, Arranged(q, indices), i) == TiedWith(q.sortBy, indices, i)
  {
    ArrangedIsStableSort(q, indices);
    TiedItems(q.sortBy, indices, i);
    TiedItems(q.sortBy, Arranged(q, indices), i);
  }

  /** Whether a text is read as a number: an optional plus sign and digits, in range. */
  ghost predicate Reads(text: string, n: nat) {
    exists digits :: (text == digits || text == "+" + digits)
      && digits != "" && AllDigits(digits) && n == Value(digits) && n <= 0xFFFF_FFFF_FFFF_FFFF
  }

  /** A number of documents is what its text says, and 0 if it cannot be read. */
  lemma ParseU64Reads(text: string)
    ensures if exists n :: Reads(text, n)
            then Reads(text, ParseU64(text)) && forall n :: Reads(text, n) ==> n == ParseU64(text)
            else ParseU64(text) == 0
  {
    var digits := if text != "" && text[0] == '+' then text[1..] else text;
    assert text == digits || text == "+" + digits;
    assert digits != "" && AllDigits(digits) && Value(digits) <= U64_MAX ==> Reads(text, Value(digits));
    forall other | (text == other || text == "+" + other) && other != "" && AllDigits(other) ensures other == digits {
      assert other[0] != '+';
    }
  }

  // ----- pages

  function DivCeil(a: nat, b: nat): nat
    requires b > 0
  {
    (a + b - 1) / b
  }

  function Min(a: nat, b: nat): nat {
    if a < b then a else b
  }

  /** `skip` and `take`. */
  function PageOf<T>(xs: seq<T>, page: nat, perPage: nat): seq<T>
    requires page >= 1
  {
    xs[Min((page - 1) * perPage, |xs|)..Min((page - 1) * perPage + perPage, |xs|)]
  }

  /** The first `n` pages, one after the other. */
  function FirstPages<T>(xs: seq<T>, perPage: nat, n: nat): seq<T> {
    if n == 0 then [] else FirstPages(xs, perPage, n - 1) + PageOf(xs, n, perPage)
  }

  lemma {:induction false} FirstPagesArePrefix<T>(xs: seq<T>, perPage: nat, n: nat)
    ensures FirstPages(xs, perPage, n) == xs[..Min(n * perPage, |xs|)]
  {
    if n > 0 {
      FirstPagesArePrefix(xs, perPage, n - 1);
      assert n * perPage == (n - 1) * perPage + perPage;
    }
  }

  lemma EnoughPages(total: nat, perPage: nat)
    requires perPage >= 1
    ensures var n := DivCeil(total, perPage); total <= n * perPage < total + perPage
  {
    var a, n := total + perPage - 1, DivCeil(total, perPage);
    assert a == n * perPage + a % perPage;
  }

  /** Pages 1 to `total_pages`, put together, are the whole list. */
  lemma PagesAreTheList<T>(xs: seq<T>, perPage: nat)
    requires perPage >= 1
    ensures FirstPages(xs, perPage, DivCeil(|xs|, perPage)) == xs
  {
    EnoughPages(|xs|, perPage);
    FirstPagesArePrefix(xs, perPage, DivCeil(|xs|, perPage));
  }

  function ShowingFrom(page: nat, perPage: nat): nat
    requires page >= 1
  {
    (page - 1) * perPage + 1
  }

  function ShowingTo(page: nat, perPage: nat, shown: nat, total: nat): nat
    requires page >= 1
  {
    Min((page - 1) * perPage + shown, total)
  }

  /** The ranges announced on the pages are as long as the pages and tile 1 to the total;
      no page up to the last is empty, and none after it shows anything. */
  lemma RangesTile<T>(xs: seq<T>, page: nat, perPage: nat)
    requires perPage >= 1 && page >= 1
    ensures var n, shown := DivCeil(|xs|, perPage), |PageOf(xs, page, perPage)|;
            var from, to := ShowingFrom(page, perPage), ShowingTo(page, perPage, shown, |xs|);
            && (page <= n <==> shown > 0)
            && (page == 1 ==> from == 1)
            && (shown > 0 ==> to - from + 1 == shown)
            && (page < n ==> ShowingFrom(page + 1, perPage) == to + 1)
            && (page == n ==> to == |xs|)
  {
    var n := DivCeil(|xs|, perPage);
    EnoughPages(|xs|, perPage);
    if page <= n { MulLe(page, n, perPage); } else { MulLe(n, page - 1, perPage); }
    if page < n { MulLe(page + 1, n, perPage); }
    assert page * perPage == (page - 1) * perPage + perPage;
    assert (page + 1) * perPage == page * perPage + perPage;
  }

  // ----- the handler

  method AliasMap(aliases: seq<Alias>) returns (aliasesMap: map<string, seq<string>>)
    ensures forall name :: AliasesOf(aliases, name) == if name in aliasesMap then aliasesMap[name] else []
    ensures forall name :: name in aliasesMap ==> aliasesMap[name] != []
  {
    aliasesMap := map[];
    var i := 0;
    while i < |aliases|
      invariant 0 <= i <= |aliases|
      invariant forall name ::
        AliasesOf(aliases[..i], name) == if name in aliasesMap then aliasesMap[name] else []
      invariant forall name :: name in aliasesMap ==> aliasesMap[name] != []
    {
      var a := aliases[i];
      assert aliases[..i + 1][..i] == aliases[..i];
      var known := if a.index in aliasesMap then aliasesMap[a.index] else [];
      aliasesMap := aliasesMap[a.index := known + [a.alias]];
      i := i + 1;
    }
    assert aliases[..i] == aliases;
  }

  lemma AssignStep(reported: seq<Index>, aliases: seq<Alias>, i: nat)
    requires i < |reported|
    ensures var before := LabelledAll(reported[..i], aliases) + reported[i..];
            && before[i] == reported[i] && before[i := reported[i]] == before
            && before[i := Labelled(reported[i], aliases)]
               == LabelledAll(reported[..i + 1], aliases) + reported[i + 1..]
  {
    assert reported[..i + 1][..i] == reported[..i];
  }

  method AssignAliases(reported: seq<Index>, aliases: seq<Alias>) returns (indices: seq<Index>)
    ensures indices == LabelledAll(reported, aliases)
  {
    var aliasesMap := AliasMap(aliases);
    indices := reported;
    var i := 0;
    while i < |indices|
      invariant 0 <= i <= |indices| == |reported|
      invariant indices == LabelledAll(reported[..i], aliases) + reported[i..]
    {
      var idx := indices[i];
      AssignStep(reported, aliases, i);
      assert AliasesOf(aliases, idx.name) == if idx.name in aliasesMap then aliasesMap[idx.name] else [];
      if idx.name in aliasesMap {
        indices := indices[i := idx.(aliases := aliasesMap[idx.name])];
      }
      i := i + 1;
    }
    assert reported[..i] == reported;
  }

  method Retain(indices: seq<Index>, hideInternal: bool) returns (kept: seq<Index>)
    ensures kept == Visible(indices, hideInternal)
    ensures forall x :: x in kept <==> x in indices && !(hideInternal && "." <= x.name)
  {
    kept := [];
    var i := 0;
    while i < |indices|
      invariant 0 <= i <= |indices|
      invariant kept == Visible(indices[..i], hideInternal)
      invariant forall x :: x in kept <==> x in indices[..i] && !(hideInternal && "." <= x.name)
    {
      assert indices[..i + 1] == indices[..i] + [indices[i]];
      if !(hideInternal && Internal(indices[i])) { kept := kept + [indices[i]]; }
      i := i + 1;
    }
    assert indices[..i] == indices;
  }

  /** A list in the order asked for, either way. */
  ghost predicate InOrder(q: Query, xs: seq<Index>) {
    forall i, j :: 0 <= i < j < |xs| ==>
      if q.sortOrder == "desc" then MayPrecede(q.sortBy, xs[j], xs[i]) else MayPrecede(q.sortBy, xs[i], xs[j])
  }

  lemma ArrangedInOrder(q: Query, indices: seq<Index>)
    ensures InOrder(q, Arranged(q, indices))
  {
    hide Arranged, MayPrecede;
    var xs := Arranged(q, indices);
    forall i, j | 0 <= i < j < |xs|
      ensures if q.sortOrder == "desc" then MayPrecede(q.sortBy, xs[j], xs[i]) else MayPrecede(q.sortBy, xs[i], xs[j])
    {
      ShownInOrder(q, indices, i, j);
    }
  }

  lemma PageInOrder(q: Query, xs: seq<Index>)
    requires q.page >= 1 && InOrder(q, xs)
    ensures InOrder(q, PageOf(xs, q.page, q.perPage))
  {
    hide MayPrecede;
  }

  method LoadIndices(reported: seq<Index>, aliases: seq<Alias>, q: Query)
    returns (page: seq<Index>, total: nat, totalPages: nat)
    requires q.page >= 1 && q.perPage >= 1
    ensures var all := Listed(q, reported, aliases);
            page == PageOf(all, q.page, q.perPage) && total == |all| && totalPages == DivCeil(|all|, q.perPage)
    ensures InOrder(q, page)
  {
    var indices := AssignAliases(reported, aliases);
    indices := Retain(indices, q.hideInternal);
    ArrangedInOrder(q, indices);
    indices := Arranged(q, indices);
    PageInOrder(q, indices);
    hide *;
    total := |indices|;
    totalPages := DivCeil(total, q.perPage);
    page := PageOf(indices, q.page, q.perPage);
  }

  /** A table sorted by size shows sizes that do not decrease, or do not increase if it is
      sorted the other way round. */
  lemma SortedSizesShowSorted(q: Query, indices: seq<Index>, i: nat, j: nat)
    requires q.sortBy == "store_size" && i < j < |Arranged(q, indices)|
    ensures var shown := Arranged(q, indices);
            var a, b := ShownHundredths(ParsedSize(shown[i].storeSize)), ShownHundredths(ParsedSize(shown[j].storeSize));
            if q.sortOrder == "desc" then b <= a else a <= b
  {
    ShownInOrder(q, indices, i, j);
    var shown := Arranged(q, indices);
    var a, b := ParsedSize(shown[i].storeSize), ParsedSize(shown[j].storeSize);
    if q.sortOrder == "desc" { DisplayMonotone(b, a); } else { DisplayMonotone(a, b); }
  }

  // ----- the search pages

  const MAX_RESULTS_PER_PAGE := 100
  const MAX_PAGES := 500
  const ES_WINDOW := 10000

  /** Page size, first hit and number of pages as `perform_search` computes them. */
  function SearchPaging(page: nat, perPage: nat, total: nat): (r: (nat, nat, nat))
    requires page >= 1 && perPage >= 1
  {
    var size := Min(perPage, MAX_RESULTS_PER_PAGE);
    var pages := DivCeil(total, size);
    (size, (page - 1) * size, Min(if pages > 1 then pages else 1, MAX_PAGES))
  }

  /** The cap on the number of pages keeps every page offered within the 10,000 results of
      Elasticsearch, whatever the total, exactly for page sizes up to 20. */
  lemma SearchWindow(perPage: nat)
    requires perPage >= 1
    ensures (forall page: nat, total: nat ::
              page >= 1 && page <= SearchPaging(page, perPage, total).2 ==>
              SearchPaging(page, perPage, total).1 + SearchPaging(page, perPage, total).0 <= ES_WINDOW)
            <==> perPage <= 20
  {
    var size := Min(perPage, MAX_RESULTS_PER_PAGE);
    if perPage <= 20 {
      forall page: nat, total: nat | page >= 1 && page <= SearchPaging(page, perPage, total).2
        ensures SearchPaging(page, perPage, total).1 + SearchPaging(page, perPage, total).0 <= ES_WINDOW
      {
        MulLe(page, 500, size);
        assert page * size == (page - 1) * size + size;
      }
    } else {
      var total := MAX_PAGES * size;
      DivUnique(total + size - 1, MAX_PAGES, size - 1, size);
      assert SearchPaging(MAX_PAGES, perPage, total) == (size, 499 * size, MAX_PAGES);
    }
  }

  /** Every hit is on a page offered as long as there are no more than the cap allows. */
  lemma AllHitsOffered(perPage: nat, total: nat)
    requires perPage >= 1
    ensures var size, pages := Min(perPage, MAX_RESULTS_PER_PAGE), SearchPaging(1, perPage, total).2;
            total <= pages * size <==> total <= 500 * size
  {
    var size := Min(perPage, MAX_RESULTS_PER_PAGE);
    var n := DivCeil(total, size);
    EnoughPages(total, size);
    if n > MAX_PAGES {
      MulLe(MAX_PAGES + 1, n, size);
    } else {
      MulLe(n, MAX_PAGES, size);
    }
  }

  /** A page holds what was asked for, at most 100 results; there is always a first page,
      never more than 500, and below that as many as the results need. */
  lemma SearchPages(page: nat, perPage: nat, total: nat)
    requires page >= 1 && perPage >= 1
    ensures var (size, first, pages) := SearchPaging(page, perPage, total);
            && size == (if perPage <= 100 then perPage else 100) && first == (page - 1) * size
            && 1 <= pages <= 500 && (total == 0 ==> pages == 1)
            && (total > 0 ==> (pages - 1) * size < total) && (pages < 500 ==> total <= pages * size)
  {
    var (size, _, pages) := SearchPaging(page, perPage, total);
    EnoughPages(total, size);
    var n := DivCeil(total, size);
    hide DivCeil;
    assert n == 0 ==> n * size == 0;
    if total > 0 {
      MulLe(pages - 1, n - 1, size);
      assert (n - 1) * size == n * size - size;
    } else if n > 1 {
      MulLe(2, n, size);
    }
  }

  /** The range the search announces; an empty page announces 0 to 0. */
  function SearchShowing(page: nat, size: nat, hits: nat, total: nat): (nat, nat)
    requires page >= 1
  {
    if total == 0 || hits == 0 then (0, 0) else (ShowingFrom(page, size), ShowingTo(page, size, hits, total))
  }

  /** When Elasticsearch returns the hits that the window asked for holds, the range is as
      long as the page, begins where the page before ended, and ends at the total on the
      last page. */
  lemma SearchRangesTile(page: nat, perPage: nat, total: nat)
    requires page >= 1 && perPage >= 1
    ensures var (size, first, _) := SearchPaging(page, perPage, total);
            var hits := Min(size, if first < total then total - first else 0);
            var (from, to) := SearchShowing(page, size, hits, total);
            && (hits == 0 <==> first >= total) && (hits == 0 ==> from == 0 && to == 0)
            && (hits > 0 ==> from == first + 1 && to == first + hits <= total)
            && (hits == size && to < total ==> SearchPaging(page + 1, perPage, total).1 == to)
            && (0 < hits < size ==> to == total)
  {
  }
}
