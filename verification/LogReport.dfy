/** What the report says about a history of recorded test cases. */
module LogReport {
  import opened Basics
  datatype Case = Case(name: string, description: string, index: string, guid: string)

  datatype Record = Record(category: string, test: Case, status: string)

  const PASS := "PASS"
  const WARNING := "WARNING"
  const FAILURE := "FAILURE"

  // ----- The aggregated state: newest first, as items and cases are put in front -----

  datatype Item = Item(category: string, passes: seq<Case>, warnNumber: nat, fails: seq<Case>)

  datatype Report = Report(items: seq<Item>, totalPass: nat, totalWarn: nat, totalFail: nat)

  const EMPTY := Report([], 0, 0, 0)

  predicate Known(status: string) { status == PASS || status == WARNING || status == FAILURE }

  /** The place of the category, or the number of items. */
  function Find(items: seq<Item>, category: string): (k: nat)
    ensures k <= |items|
    ensures k < |items| ==> items[k].category == category
    ensures forall i :: 0 <= i < k ==> items[i].category != category
  {
    if items == [] || items[0].category == category then 0 else 1 + Find(items[1..], category)
  }

  function AddCase(item: Item, test: Case, status: string): Item {
    if status == PASS then item.(passes := [test] + item.passes)
    else if status == WARNING then item.(warnNumber := item.warnNumber + 1)
    else if status == FAILURE then item.(fails := [test] + item.fails)
    else item
  }

  /** A category that is new gets its item even when the status is not known. */
  function WithItem(items: seq<Item>, category: string): seq<Item> {
    if Find(items, category) < |items| then items else [Item(category, [], 0, [])] + items
  }

  function Recorded(report: Report, r: Record): Report {
    var items := WithItem(report.items, r.category);
    var k := Find(items, r.category);
    assert items[0].category == r.category || k < |items|;
    Report(
      items[k := AddCase(items[k], r.test, r.status)],
      report.totalPass + if r.status == PASS then 1 else 0,
      report.totalWarn + if r.status == WARNING then 1 else 0,
      report.totalFail + if r.status == FAILURE then 1 else 0)
  }

  function After(history: seq<Record>): Report {
    if history == [] then EMPTY else Recorded(After(history[..|history| - 1]), history[|history| - 1])
  }

  // ----- The report -----

  datatype Line =
    | Protocol(category: string, total: nat, failed: nat, passed: nat)
    | Total(total: nat, failed: nat, passed: nat)
    | Failed(category: string, test: Case)
    | Passed(category: string, test: Case)

  function ProtocolLine(item: Item): Line {
    Protocol(item.category, |item.passes| + |item.fails|, |item.fails|, |item.passes|)
  }

  function Summary(items: seq<Item>): seq<Line> {
    if items == [] then [] else Summary(items[1..]) + [ProtocolLine(items[0])]
  }

  function FailedCases(category: string, cases: seq<Case>): seq<Line> {
    if cases == [] then [] else FailedCases(category, cases[1..]) + [Failed(category, cases[0])]
  }

  function PassedCases(category: string, cases: seq<Case>): seq<Line> {
    if cases == [] then [] else PassedCases(category, cases[1..]) + [Passed(category, cases[0])]
  }

  function FailDetails(items: seq<Item>): seq<Line> {
    if items == [] then [] else FailDetails(items[1..]) + FailedCases(items[0].category, items[0].fails)
  }

  function PassDetails(items: seq<Item>): seq<Line> {
    if items == [] then [] else PassDetails(items[1..]) + PassedCases(items[0].category, items[0].passes)
  }

  /** The lines of the report: every list is walked from its oldest entry on. */
  function Lines(report: Report): seq<Line> {
    Summary(report.items)
    + [Total(report.totalPass + report.totalFail, report.totalFail, report.totalPass)]
    + FailDetails(report.items) + PassDetails(report.items)
  }

  // ----- The history -----

  /** The categories in the order in which they were first recorded. */
  function Categories(history: seq<Record>): seq<string> {
    if history == [] then []
    else
      var before, c := Categories(history[..|history| - 1]), history[|history| - 1].category;
      if c in before then before else before + [c]
  }

  /** The cases of a category with a status, in the order in which they were recorded. */
  function Cases(history: seq<Record>, category: string, status: string): seq<Case> {
    if history == [] then []
    else
      var before, r := Cases(history[..|history| - 1], category, status), history[|history| - 1];
      if r.category == category && r.status == status then before + [r.test] else before
  }

  function Count(history: seq<Record>, status: string): nat {
    if history == [] then 0
    else Count(history[..|history| - 1], status) + if history[|history| - 1].status == status then 1 else 0
  }

  function ItemOf(history: seq<Record>, category: string): Item {
    Item(category, Reverse(Cases(history, category, PASS)), |Cases(history, category, WARNING)|,
         Reverse(Cases(history, category, FAILURE)))
  }

  function ItemsOf(history: seq<Record>, categories: seq<string>): seq<Item> {
    if categories == [] then []
    else [ItemOf(history, categories[|categories| - 1])] + ItemsOf(history, categories[..|categories| - 1])
  }

  lemma {:induction false} CategoriesAreDistinct(history: seq<Record>)
    ensures Distinct(Categories(history))
    ensures forall r <- history :: r.category in Categories(history)
  {
    if history != [] {
      CategoriesAreDistinct(history[..|history| - 1]);
      assert history == history[..|history| - 1] + [history[|history| - 1]];
    }
  }

  /** What is recorded later comes later. */
  lemma {:induction false} CasesInOrder(first: seq<Record>, later: seq<Record>, category: string, status: string)
    ensures Cases(first + later, category, status) == Cases(first, category, status) + Cases(later, category, status)
    ensures Count(first + later, status) == Count(first, status) + Count(later, status)
  {
    if later == [] {
      assert first + later == first;
    } else {
      CasesInOrder(first, later[..|later| - 1], category, status);
      assert (first + later)[..|first + later| - 1] == first + later[..|later| - 1];
    }
  }

  /** Categories that are recorded later come later. */
  lemma {:induction false} CategoriesInOrder(first: seq<Record>, later: seq<Record>)
    ensures Categories(first) <= Categories(first + later)
    ensures forall c <- Categories(first + later) :: c in Categories(first) || exists r <- later :: r.category == c
  {
    if later == [] {
      assert first + later == first;
    } else {
      var all, front := first + later, later[..|later| - 1];
      CategoriesInOrder(first, front);
      assert all[..|all| - 1] == first + front && later == front + [later[|later| - 1]];
    }
  }

  lemma {:induction false} ItemsAt(history: seq<Record>, categories: seq<string>)
    ensures |ItemsOf(history, categories)| == |categories|
    ensures forall i :: 0 <= i < |categories| ==>
              ItemsOf(history, categories)[i] == ItemOf(history, categories[|categories| - 1 - i])
  {
    if categories != [] {
      var n := |categories|;
      var front := categories[..n - 1];
      ItemsAt(history, front);
      var rest := ItemsOf(history, front);
      assert ItemsOf(history, categories) == [ItemOf(history, categories[n - 1])] + rest;
      hide ItemsOf, ItemOf;
      forall i | 0 < i < n
        ensures ItemsOf(history, categories)[i] == ItemOf(history, categories[n - 1 - i])
      {
        assert ItemsOf(history, categories)[i] == rest[i - 1];
      }
    }
  }

  /** A record changes the item of its own category and no other. */
  lemma ItemAfterRecord(history: seq<Record>, r: Record, category: string)
    ensures ItemOf(history + [r], category) ==
              if category == r.category then AddCase(ItemOf(history, category), r.test, r.status)
              else ItemOf(history, category)
  {
    assert (history + [r])[..|history|] == history;
    ReverseAppends(Cases(history, category, PASS), r.test);
    ReverseAppends(Cases(history, category, FAILURE), r.test);
  }

  lemma {:induction false} ReverseAppends<T>(xs: seq<T>, x: T)
    ensures Reverse(xs + [x]) == [x] + Reverse(xs)
  {
  }

  lemma {:induction false} NothingRecorded(history: seq<Record>, category: string, status: string)
    requires category !in Categories(history)
    ensures Cases(history, category, status) == []
  {
    CategoriesAreDistinct(history);
    NoSuchRecord(history, category, status);
  }

  lemma {:induction false} NoSuchRecord(history: seq<Record>, category: string, status: string)
    requires forall r <- history :: r.category != category
    ensures Cases(history, category, status) == []
  {
    if history != [] {
      NoSuchRecord(history[..|history| - 1], category, status);
    }
  }

  /** The state that a history leads to, read off the history. */
  function Described(history: seq<Record>): Report {
    Report(ItemsOf(history, Categories(history)),
           Count(history, PASS), Count(history, WARNING), Count(history, FAILURE))
  }

  lemma {:induction false} CountAfterRecord(history: seq<Record>, r: Record, status: string)
    ensures Count(history + [r], status) == Count(history, status) + if r.status == status then 1 else 0
  {
    assert (history + [r])[..|history|] == history;
  }

  lemma {:induction false} DescribedAfterRecord(history: seq<Record>, r: Record)
    ensures Recorded(Described(history), r) == Described(history + [r])
  {
    hide ItemsOf, AddCase, WithItem, Find, Categories, Count;
    ItemsAfterRecord(history, r);
    CountAfterRecord(history, r, PASS);
    CountAfterRecord(history, r, WARNING);
    CountAfterRecord(history, r, FAILURE);
  }

  /** The items are, newest first, what the history holds for each category, and the
      totals count the whole history. */
  lemma {:induction false} AfterIsHistory(history: seq<Record>)
    ensures After(history) == Described(history)
  {
    if history == [] {
      assert Described(history) == EMPTY;
    } else {
      hide Recorded, Described;
      var front, r := history[..|history| - 1], history[|history| - 1];
      AfterIsHistory(front);
      assert history == front + [r];
      DescribedAfterRecord(front, r);
    }
  }

  lemma {:induction false} CategoriesAfterRecord(history: seq<Record>, r: Record)
    ensures Categories(history + [r]) ==
              if r.category in Categories(history) then Categories(history) else Categories(history) + [r.category]
  {
    assert (history + [r])[..|history|] == history;
  }

  lemma {:induction false} FindsOnly(items: seq<Item>, category: string, k: nat)
    requires k < |items| && items[k].category == category
    requires forall i :: 0 <= i < |items| && i != k ==> items[i].category != category
    ensures Find(items, category) == k
  {
  }

  lemma {:induction false} ItemsAfterRecord(history: seq<Record>, r: Record)
    ensures var items := WithItem(ItemsOf(history, Categories(history)), r.category);
            var k := Find(items, r.category);
            k < |items| &&
            items[k := AddCase(items[k], r.test, r.status)] == ItemsOf(history + [r], Categories(history + [r]))
  {
    hide ItemOf, AddCase, ItemsOf, Categories;
    CategoriesAreDistinct(history);
    CategoriesAfterRecord(history, r);
    if r.category in Categories(history) {
      KnownCategory(history, r, Categories(history));
    } else {
      NewCategory(history, r, Categories(history));
    }
  }

  lemma {:induction false} KnownCategory(history: seq<Record>, r: Record, categories: seq<string>)
    requires Distinct(categories) && r.category in categories
    ensures var items := ItemsOf(history, categories);
            var k := Find(items, r.category);
            k < |items| && WithItem(items, r.category) == items &&
            items[k := AddCase(items[k], r.test, r.status)] == ItemsOf(history + [r], categories)
  {
    hide AddCase, ItemsOf, Find;
    var items := ItemsOf(history, categories);
    ItemsAt(history, categories);
    ItemsAt(history + [r], categories);
    var at :| 0 <= at < |categories| && categories[at] == r.category;
    FindsOnly(items, r.category, |categories| - 1 - at);
    forall i | 0 <= i < |items|
      ensures ItemsOf(history + [r], categories)[i] ==
                if i == |categories| - 1 - at then AddCase(items[i], r.test, r.status) else items[i]
    {
      ItemAfterRecord(history, r, categories[|categories| - 1 - i]);
    }
  }

  lemma {:induction false} FreshItem(history: seq<Record>, category: string)
    requires category !in Categories(history)
    ensures ItemOf(history, category) == Item(category, [], 0, [])
  {
    NothingRecorded(history, category, PASS);
    NothingRecorded(history, category, WARNING);
    NothingRecorded(history, category, FAILURE);
  }

  lemma {:induction false} NewCategory(history: seq<Record>, r: Record, categories: seq<string>)
    requires categories == Categories(history) && Distinct(categories) && r.category !in categories
    ensures var items := WithItem(ItemsOf(history, categories), r.category);
            items != [] && Find(items, r.category) == 0 &&
            items[0 := AddCase(items[0], r.test, r.status)] == ItemsOf(history + [r], categories + [r.category])
  {
    hide AddCase, Cases, Reverse, Categories;
    var items := ItemsOf(history, categories);
    var first := ItemOf(history, r.category);
    FreshItem(history, r.category);
    ItemsAt(history, categories);
    ItemsAt(history + [r], categories);
    ItemAfterRecord(history, r, r.category);
    forall i | 0 <= i < |items| ensures ItemsOf(history + [r], categories)[i] == items[i] {
      ItemAfterRecord(history, r, categories[|categories| - 1 - i]);
    }
    assert ItemsOf(history + [r], categories) == items;
    assert (categories + [r.category])[..|categories|] == categories;
    forall i | 0 <= i < |items| ensures items[i].category != r.category {
      assert categories[|categories| - 1 - i] in categories;
    }
    assert ([first] + items)[0 := AddCase(first, r.test, r.status)] == [AddCase(first, r.test, r.status)] + items;
  }

  // ----- What the report says about the history -----

  function FailedLines(category: string, cases: seq<Case>): seq<Line> {
    seq(|cases|, i requires 0 <= i < |cases| => Failed(category, cases[i]))
  }

  function PassedLines(category: string, cases: seq<Case>): seq<Line> {
    seq(|cases|, i requires 0 <= i < |cases| => Passed(category, cases[i]))
  }

  function ProtocolLines(history: seq<Record>, categories: seq<string>): seq<Line> {
    if categories == [] then []
    else
      var c := categories[|categories| - 1];
      var passed, failed := |Cases(history, c, PASS)|, |Cases(history, c, FAILURE)|;
      ProtocolLines(history, categories[..|categories| - 1]) + [Protocol(c, passed + failed, failed, passed)]
  }

  function FailedByCategory(history: seq<Record>, categories: seq<string>): seq<Line> {
    if categories == [] then []
    else
      var c := categories[|categories| - 1];
      FailedByCategory(history, categories[..|categories| - 1]) + FailedLines(c, Cases(history, c, FAILURE))
  }

  function PassedByCategory(history: seq<Record>, categories: seq<string>): seq<Line> {
    if categories == [] then []
    else
      var c := categories[|categories| - 1];
      PassedByCategory(history, categories[..|categories| - 1]) + PassedLines(c, Cases(history, c, PASS))
  }

  lemma {:induction false} FailedInOrder(category: string, cases: seq<Case>)
    ensures FailedCases(category, Reverse(cases)) == FailedLines(category, cases)
  {
    if cases != [] {
      var front, last := cases[..|cases| - 1], cases[|cases| - 1];
      FailedInOrder(category, front);
      ReverseAppends(front, last);
      assert cases == front + [last];
      assert Reverse(cases)[1..] == Reverse(front);
    }
  }

  lemma {:induction false} PassedInOrder(category: string, cases: seq<Case>)
    ensures PassedCases(category, Reverse(cases)) == PassedLines(category, cases)
  {
    if cases != [] {
      var front, last := cases[..|cases| - 1], cases[|cases| - 1];
      PassedInOrder(category, front);
      ReverseAppends(front, last);
      assert cases == front + [last];
      assert Reverse(cases)[1..] == Reverse(front);
    }
  }

  /** The item that the walk over more categories comes to last. */
  lemma OneMoreItem(history: seq<Record>, categories: seq<string>)
    requires categories != []
    ensures var c := categories[|categories| - 1];
            ItemsOf(history, categories) ==
              [ItemOf(history, c)] + ItemsOf(history, categories[..|categories| - 1])
  {
  }

  lemma {:induction false} SummaryFollowsHistory(history: seq<Record>, categories: seq<string>)
    ensures Summary(ItemsOf(history, categories)) == ProtocolLines(history, categories)
  {
    hide Cases;
    if categories != [] {
      OneMoreItem(history, categories);
      SummaryFollowsHistory(history, categories[..|categories| - 1]);
      assert ItemsOf(history, categories)[1..] == ItemsOf(history, categories[..|categories| - 1]);
    }
  }

  lemma {:induction false} FailDetailsFollowHistory(history: seq<Record>, categories: seq<string>)
    ensures FailDetails(ItemsOf(history, categories)) == FailedByCategory(history, categories)
  {
    hide Cases, FailedCases, FailedLines;
    if categories != [] {
      var front, c := categories[..|categories| - 1], categories[|categories| - 1];
      OneMoreItem(history, categories);
      FailDetailsFollowHistory(history, front);
      FailedInOrder(c, Cases(history, c, FAILURE));
      assert ItemsOf(history, categories)[1..] == ItemsOf(history, front);
    }
  }

  lemma {:induction false} PassDetailsFollowHistory(history: seq<Record>, categories: seq<string>)
    ensures PassDetails(ItemsOf(history, categories)) == PassedByCategory(history, categories)
  {
    hide Cases, PassedCases, PassedLines;
    if categories != [] {
      var front, c := categories[..|categories| - 1], categories[|categories| - 1];
      OneMoreItem(history, categories);
      PassDetailsFollowHistory(history, front);
      PassedInOrder(c, Cases(history, c, PASS));
      assert ItemsOf(history, categories)[1..] == ItemsOf(history, front);
    }
  }

  /** The report of any history: each category once, in the order first recorded, with
      the numbers of its passed and failed cases; the totals; and then all failed and all
      passed cases, by category and in the order recorded. */
  lemma {:induction false} ReportIsHistory(history: seq<Record>)
    ensures var cs := Categories(history);
            var passed, failed := Count(history, PASS), Count(history, FAILURE);
            && Distinct(cs)
            && Lines(After(history)) ==
                 ProtocolLines(history, cs) + [Total(passed + failed, failed, passed)]
                 + FailedByCategory(history, cs) + PassedByCategory(history, cs)
  {
    hide Categories, Count, After, ItemsOf, Summary, FailDetails, PassDetails, ProtocolLines, FailedByCategory,
         PassedByCategory, Distinct;
    AfterIsHistory(history);
    CategoriesAreDistinct(history);
    SummaryFollowsHistory(history, Categories(history));
    FailDetailsFollowHistory(history, Categories(history));
    PassDetailsFollowHistory(history, Categories(history));
  }

  function SumOfCases(history: seq<Record>, categories: seq<string>, status: string): nat {
    if categories == [] then 0
    else SumOfCases(history, categories[..|categories| - 1], status)
         + |Cases(history, categories[|categories| - 1], status)|
  }

  lemma {:induction false} SumAfterRecord(history: seq<Record>, r: Record, categories: seq<string>, status: string)
    requires Distinct(categories)
    ensures SumOfCases(history + [r], categories, status) ==
              SumOfCases(history, categories, status)
              + if r.category in categories && r.status == status then 1 else 0
  {
    if categories != [] {
      var front, c := categories[..|categories| - 1], categories[|categories| - 1];
      SumAfterRecord(history, r, front, status);
      assert (history + [r])[..|history|] == history;
      assert categories == front + [c];
    }
  }

  /** Each total is the sum of the numbers of all categories. */
  lemma {:induction false} TotalsAreSums(history: seq<Record>, status: string)
    ensures Count(history, status) == SumOfCases(history, Categories(history), status)
  {
    if history != [] {
      var front, r := history[..|history| - 1], history[|history| - 1];
      var before := Categories(front);
      TotalsAreSums(front, status);
      CategoriesAreDistinct(history);
      SumAfterRecord(front, r, Categories(history), status);
      assert history == front + [r];
      if r.category !in before {
        NothingRecorded(front, r.category, status);
        assert Categories(history)[..|before|] == before;
      }
    }
  }
}
