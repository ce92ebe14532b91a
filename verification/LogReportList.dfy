/** The linked lists of the report aggregator. */
module LogReportList {
  import opened Basics
  import opened LogReport

  // Recording a case is proved to do what LogReport.Recorded says, and walking the lists to
  // yield LogReport.Lines.

  /** An entry of a doubly linked list. `owner` is whose list it was put on. */
  class Link<T> {
    const data: T
    ghost const owner: object
    var prev: Link?<T>
    var next: Link?<T>

    constructor (data: T, ghost owner: object)
      ensures this.data == data && this.owner == owner && prev == null && next == null
    {
      this.data, this.owner := data, owner;
      prev, next := null, null;
    }
  }

  /** `head` starts a list through exactly `links`, and `prev` inverts `next`. */
  ghost predicate Chain<T>(head: Link?<T>, links: seq<Link<T>>)
    reads links
  {
    && Distinct(links)
    && head == (if links == [] then null else links[0])
    && (forall i {:trigger links[i].next} :: 0 <= i < |links| ==>
          links[i].next == if i + 1 < |links| then links[i + 1] else null)
    && (forall i {:trigger links[i].prev} :: 0 <= i < |links| ==>
          links[i].prev == if i > 0 then links[i - 1] else null)
  }

  /** Puts a new entry in front of the list. */
  method Push<T>(head: Link?<T>, ghost links: seq<Link<T>>, data: T, ghost owner: object) returns (first: Link<T>)
    requires Chain(head, links)
    modifies set l | l in links && l == head
    ensures fresh(first) && first.data == data && first.owner == owner && Chain(first, [first] + links)
  {
    first := new Link(data, owner);
    first.prev := null;
    first.next := head;
    if head != null {
      head.prev := first;
    }
  }

  /** Walks to the oldest entry. */
  method Last<T>(head: Link?<T>, ghost links: seq<Link<T>>) returns (term: Link?<T>)
    requires Chain(head, links)
    ensures term == if links == [] then null else links[|links| - 1]
  {
    var h := head;
    term := null;
    ghost var k := 0;
    while h != null
      invariant 0 <= k <= |links| && h == if k < |links| then links[k] else null
      invariant term == if k == 0 then null else links[k - 1]
      decreases |links| - k
    {
      term := h;
      h := h.next;
      k := k + 1;
    }
  }

  ghost function Datas(links: seq<Link<Case>>): seq<Case> {
    seq(|links|, i requires 0 <= i < |links| => links[i].data)
  }

  class ReportItem {
    const category: string
    var passNumber: nat
    var warnNumber: nat
    var failNumber: nat
    var passCase: Link?<Case>
    var failCase: Link?<Case>
    ghost var passes: seq<Link<Case>>
    ghost var fails: seq<Link<Case>>

    ghost predicate Valid()
      reads this, passes, fails
    {
      && Chain(passCase, passes) && Chain(failCase, fails)
      && (forall l <- passes :: l.owner == this && l !in fails)
      && (forall l <- fails :: l.owner == this)
      && passNumber == |passes| && failNumber == |fails|
    }

    ghost function View(): Item
      reads this
    {
      Item(category, Datas(passes), warnNumber, Datas(fails))
    }

    constructor (category: string)
      ensures Valid() && this.category == category && passes == [] && fails == []
      ensures View() == Item(category, [], 0, [])
    {
      this.category := category;
      passNumber, warnNumber, failNumber := 0, 0, 0;
      passCase, failCase, passes, fails := null, null, [], [];
    }

    /** The failed cases, oldest first. */
    method FailedWalk() returns (lines: seq<Line>)
      requires Valid()
      ensures lines == FailedCases(category, View().fails)
    {
      var term := Last(failCase, fails);
      lines := [];
      ghost var cases, k := Datas(fails), |fails|;
      assert cases[k..] == [];
      while term != null
        invariant 0 <= k <= |fails| && term == if k > 0 then fails[k - 1] else null
        invariant lines == FailedCases(category, cases[k..])
        decreases k
      {
        assert cases[k - 1..][1..] == cases[k..];
        lines := lines + [Failed(category, term.data)];
        term := term.prev;
        k := k - 1;
      }
      assert cases[0..] == cases;
    }

    /** The passed cases, oldest first. */
    method PassedWalk() returns (lines: seq<Line>)
      requires Valid()
      ensures lines == PassedCases(category, View().passes)
    {
      var term := Last(passCase, passes);
      lines := [];
      ghost var cases, k := Datas(passes), |passes|;
      assert cases[k..] == [];
      while term != null
        invariant 0 <= k <= |passes| && term == if k > 0 then passes[k - 1] else null
        invariant lines == PassedCases(category, cases[k..])
        decreases k
      {
        assert cases[k - 1..][1..] == cases[k..];
        lines := lines + [Passed(category, term.data)];
        term := term.prev;
        k := k - 1;
      }
      assert cases[0..] == cases;
    }

    /** Counts a case; one that passed or failed is also listed. */
    method Add(test: Case, status: string)
      requires Valid()
      modifies this, passes, fails
      ensures Valid() && View() == AddCase(old(View()), test, status)
      ensures forall l <- passes :: l in old(passes) || fresh(l)
      ensures forall l <- fails :: l in old(fails) || fresh(l)
    {
      hide Chain, Distinct;
      if status == PASS {
        passNumber := passNumber + 1;
        passCase := Push(passCase, passes, test, this);
        passes := [passCase] + passes;
        assert Datas(passes) == [test] + Datas(old(passes));
      } else if status == WARNING {
        warnNumber := warnNumber + 1;
      } else if status == FAILURE {
        failNumber := failNumber + 1;
        failCase := Push(failCase, fails, test, this);
        fails := [failCase] + fails;
        assert Datas(fails) == [test] + Datas(old(fails));
      }
    }
  }

  /** The entries of an item are its own and belong to the set. */
  ghost predicate Held(item: ReportItem, repr: set<object>)
    reads item
  {
    && (forall l <- item.passes :: l in repr && l.owner == item)
    && (forall l <- item.fails :: l in repr && l.owner == item)
  }

  ghost predicate Kept(link: Link<ReportItem>, owner: object, repr: set<object>)
    reads link.data
  {
    link in repr && link.owner == owner && link.data in repr && Held(link.data, repr)
  }

  ghost predicate OneItemEach(links: seq<Link<ReportItem>>) {
    forall i, j :: 0 <= i < j < |links| ==> links[i].data != links[j].data
  }

  class ReportInfo {
    var reportItem: Link?<ReportItem>
    var totalPass: nat
    var totalWarn: nat
    var totalFail: nat
    ghost var links: seq<Link<ReportItem>>
    ghost var items: seq<Item>
    ghost var repr: set<object>

    /** No two entries hold the same item, and all that hangs on them is in `repr`. */
    ghost predicate Separate()
      reads `links, `repr, repr
    {
      && (forall i :: 0 <= i < |links| ==> links[i].data in repr && Kept(links[i], this, repr))
      && OneItemEach(links)
    }

    ghost predicate Valid()
      reads `reportItem, `links, `items, `repr, repr
    {
      && this !in repr && Separate()
      && Chain(reportItem, links)
      && |items| == |links|
      && (forall i :: 0 <= i < |links| ==> links[i].data.Valid() && links[i].data.View() == items[i])
      && DistinctCategories(items)
    }

    ghost function View(): Report
      reads this
    {
      Report(items, totalPass, totalWarn, totalFail)
    }

    constructor ()
      ensures Valid() && View() == EMPTY && fresh(repr)
    {
      reportItem, totalPass, totalWarn, totalFail := null, 0, 0, 0;
      links, items, repr := [], [], {};
    }

    /** The search for the item of a category. */
    method FindItem(category: string) returns (found: Link?<ReportItem>)
      requires Valid()
      ensures found == if Find(items, category) < |items| then links[Find(items, category)] else null
    {
      found := reportItem;
      ghost var k := 0;
      while found != null
        invariant 0 <= k <= |links| && found == if k < |links| then links[k] else null
        invariant forall i :: 0 <= i < k ==> items[i].category != category
        decreases |links| - k
      {
        assert found.data.category == items[k].category;
        if found.data.category == category {
          FindsFirst(items, category, k);
          return;
        }
        found := found.next;
        k := k + 1;
      }
      FindsFirst(items, category, k);
    }

    /** Makes a list of items the one that is held. */
    method Adopt(
      head: Link?<ReportItem>, ghost links: seq<Link<ReportItem>>, ghost items: seq<Item>, ghost repr: set<object>)
      requires this !in repr && Chain(head, links) && |items| == |links|
      requires forall i :: 0 <= i < |links| ==> links[i].data in repr && Kept(links[i], this, repr)
      requires forall i :: 0 <= i < |links| ==> links[i].data.Valid() && links[i].data.View() == items[i]
      requires OneItemEach(links) && DistinctCategories(items)
      modifies `reportItem, `links, `items, `repr
      ensures Valid() && this.links == links && this.items == items && this.repr == repr
    {
      hide Chain, ReportItem.Valid, ReportItem.View, DistinctCategories, Kept, OneItemEach;
      reportItem := head;
      this.links, this.items, this.repr := links, items, repr;
    }

    method PushItem(category: string) returns (link: Link<ReportItem>)
      requires Valid() && Find(items, category) == |items|
      modifies this, repr
      ensures Valid() && fresh(repr - old(repr)) && links == [link] + old(links)
      ensures items == [Item(category, [], 0, [])] + old(items) == WithItem(old(items), category)
      ensures totalPass == old(totalPass) && totalWarn == old(totalWarn) && totalFail == old(totalFail)
    {
      hide Find, WithItem, Chain, Distinct, ReportItem.Valid, ReportItem.View, DistinctCategories, Kept, OneItemEach;
      NewCategoryInFront(items, category);
      KeptHeads(links, this, repr);
      var item := new ReportItem(category);
      link := Push(reportItem, links, item, this);
      ghost var links', items', repr' := [link] + links, [Item(category, [], 0, [])] + items, repr + {link, item};
      forall i | 0 <= i < |links'|
        ensures links'[i].data.Valid() && links'[i].data.View() == items'[i] && Kept(links'[i], this, repr')
      {
        if i > 0 {
          KeptInMore(links[i - 1], this, repr, repr');
        } else {
          NothingToKeep(link, this, repr');
        }
      }
      NewItemInFront(links, link);
      Adopt(link, links', items', repr');
    }

    /** Counts a case under one item, which no other item notices. */
    method AddTo(link: Link<ReportItem>, ghost k: nat, test: Case, status: string)
      requires Valid() && k < |links| && link == links[k]
      modifies `reportItem, `links, `items, `repr, repr
      ensures Valid() && fresh(repr - old(repr)) && links == old(links)
      ensures items == old(items)[k := AddCase(old(items)[k], test, status)]
      ensures totalPass == old(totalPass) && totalWarn == old(totalWarn) && totalFail == old(totalFail)
    {
      hide Chain, Distinct, ReportItem.Valid, ReportItem.View, DistinctCategories, AddCase, Held, OneItemEach;
      StillDistinct(items, k, test, status);
      OthersUnshared(k);
      HeldEntries(link.data, repr);
      ghost var passes, fails := link.data.passes, link.data.fails;
      label before:
      link.data.Add(test, status);
      ghost var repr' := repr + (set l | l in link.data.passes) + (set l | l in link.data.fails);
      forall i | 0 <= i < |links| && i != k
        ensures links[i].data.Valid() && links[i].data.View() == items[i] && Held(links[i].data, repr')
      {
        assert Unshared(links[i].data, passes, fails);
        ItemKept@before(links[i].data);
        HeldInMore(links[i].data, repr, repr');
      }
      OwnEntries(link.data, repr');
      Adopt(reportItem, links, items[k := AddCase(items[k], test, status)], repr');
    }

    lemma OthersUnshared(k: nat)
      requires Valid() && k < |links|
      ensures forall i :: 0 <= i < |links| && i != k ==>
                links[i].data != links[k].data &&
                Unshared(links[i].data, links[k].data.passes, links[k].data.fails)
    {
      hide Chain, Distinct, ReportItem.Valid, ReportItem.View, DistinctCategories;
      forall i | 0 <= i < |links| && i != k
        ensures links[i].data != links[k].data &&
                Unshared(links[i].data, links[k].data.passes, links[k].data.fails)
      {
        OwnersDiffer(links[i].data, links[k].data);
      }
    }

    /** Counts a case under an item and in the totals. */
    method CountCase(link: Link<ReportItem>, ghost k: nat, test: Case, status: string) returns (ok: bool)
      requires Valid() && k < |links| && link == links[k]
      modifies this, repr
      ensures Valid() && fresh(repr - old(repr)) && links == old(links)
      ensures ok == Known(status)
      ensures items == old(items)[k := AddCase(old(items)[k], test, status)]
      ensures totalPass == old(totalPass) + if status == PASS then 1 else 0
      ensures totalWarn == old(totalWarn) + if status == WARNING then 1 else 0
      ensures totalFail == old(totalFail) + if status == FAILURE then 1 else 0
    {
      hide Chain, Distinct, Separate, ReportItem.Valid, ReportItem.View, DistinctCategories, AddCase;
      StillDistinct(items, k, test, status);
      AddTo(link, k, test, status);
      if status == PASS {
        totalPass := totalPass + 1;
      } else if status == WARNING {
        totalWarn := totalWarn + 1;
      } else if status == FAILURE {
        totalFail := totalFail + 1;
      } else {
        return false;
      }
      ok := true;
    }

    method SetReportItem(r: Record) returns (ok: bool)
      requires Valid()
      modifies this, repr
      ensures Valid() && fresh(repr - old(repr))
      ensures ok == Known(r.status)
      ensures View() == Recorded(old(View()), r)
    {
      hide Find, AddCase, Separate, DistinctCategories, Chain, ReportItem.Valid, ReportItem.View, WithItem;
      ItemInPlace(items, r.category);
      ghost var k := Find(WithItem(items, r.category), r.category);
      var found := FindItem(r.category);
      if found == null {
        found := PushItem(r.category);
      }
      ok := CountCase(found, k, r.test, r.status);
    }

    /** One line for every category, the first recorded first. */
    method SummaryWalk() returns (lines: seq<Line>)
      requires Valid()
      ensures lines == Summary(items)
    {
      hide Distinct, DistinctCategories, OneItemEach, Kept;
      var term := Last(reportItem, links);
      lines := [];
      ghost var k := |links|;
      assert items[k..] == [];
      while term != null
        invariant 0 <= k <= |links| && term == if k > 0 then links[k - 1] else null
        invariant lines == Summary(items[k..])
        decreases k
      {
        assert items[k - 1..][1..] == items[k..] && items[k - 1] == term.data.View();
        lines := lines + [Protocol(term.data.category, term.data.passNumber + term.data.failNumber,
                                   term.data.failNumber, term.data.passNumber)];
        term := term.prev;
        k := k - 1;
      }
      assert items[0..] == items;
    }

    /** The failed cases of all categories. */
    method FailWalk() returns (lines: seq<Line>)
      requires Valid()
      ensures lines == FailDetails(items)
    {
      var term := Last(reportItem, links);
      lines := [];
      ghost var k := |links|;
      assert items[k..] == [];
      while term != null
        invariant 0 <= k <= |links| && term == if k > 0 then links[k - 1] else null
        invariant lines == FailDetails(items[k..])
        decreases k
      {
        assert items[k - 1..][1..] == items[k..] && items[k - 1] == term.data.View();
        var more := term.data.FailedWalk();
        lines := lines + more;
        term := term.prev;
        k := k - 1;
      }
      assert items[0..] == items;
    }

    /** The passed cases of all categories. */
    method PassWalk() returns (lines: seq<Line>)
      requires Valid()
      ensures lines == PassDetails(items)
    {
      var term := Last(reportItem, links);
      lines := [];
      ghost var k := |links|;
      assert items[k..] == [];
      while term != null
        invariant 0 <= k <= |links| && term == if k > 0 then links[k - 1] else null
        invariant lines == PassDetails(items[k..])
        decreases k
      {
        assert items[k - 1..][1..] == items[k..] && items[k - 1] == term.data.View();
        var more := term.data.PassedWalk();
        lines := lines + more;
        term := term.prev;
        k := k - 1;
      }
      assert items[0..] == items;
    }

    /** The report, without its column headings. */
    method GetReportInfo() returns (lines: seq<Line>)
      requires Valid()
      ensures lines == Lines(View())
    {
      lines := SummaryWalk();
      lines := lines + [Total(totalPass + totalFail, totalFail, totalPass)];
      var details := FailWalk();
      lines := lines + details;
      details := PassWalk();
      lines := lines + details;
    }
  }

  /** Records a whole history and makes the report of it. */
  method GenerateReport(history: seq<Record>) returns (lines: seq<Line>)
    ensures var cs := Categories(history);
            var passed, failed := Count(history, PASS), Count(history, FAILURE);
            lines == ProtocolLines(history, cs) + [Total(passed + failed, failed, passed)]
                     + FailedByCategory(history, cs) + PassedByCategory(history, cs)
  {
    hide Recorded, Lines, Categories, Count, ProtocolLines, FailedByCategory, PassedByCategory, ReportInfo.Valid;
    var info := new ReportInfo();
    assert history[..0] == [];
    for k := 0 to |history|
      invariant info.Valid() && fresh(info) && fresh(info.repr) && info.View() == After(history[..k])
    {
      var ok := info.SetReportItem(history[k]);
      assert history[..k + 1][..k] == history[..k];
    }
    assert history[..|history|] == history;
    lines := info.GetReportInfo();
    ReportIsHistory(history);
  }

  lemma HeldEntries(item: ReportItem, repr: set<object>)
    requires Held(item, repr)
    ensures (forall l <- item.passes :: l in repr) && (forall l <- item.fails :: l in repr)
  {
  }

  lemma HeldInMore(item: ReportItem, repr: set<object>, more: set<object>)
    requires Held(item, repr) && repr <= more
    ensures Held(item, more)
  {
  }

  lemma KeptInMore(link: Link<ReportItem>, owner: object, repr: set<object>, more: set<object>)
    requires Kept(link, owner, repr) && repr <= more
    ensures Kept(link, owner, more)
  {
  }

  lemma NothingToKeep(link: Link<ReportItem>, owner: object, repr: set<object>)
    requires link in repr && link.owner == owner && link.data in repr
    requires link.data.passes == [] && link.data.fails == []
    ensures Kept(link, owner, repr)
  {
  }

  lemma OwnEntries(item: ReportItem, repr: set<object>)
    requires item.Valid() && (forall l <- item.passes :: l in repr) && (forall l <- item.fails :: l in repr)
    ensures Held(item, repr)
  {
  }

  lemma KeptHeads(links: seq<Link<ReportItem>>, owner: object, repr: set<object>)
    requires forall i :: 0 <= i < |links| ==> Kept(links[i], owner, repr)
    ensures forall l <- links :: l in repr && l.data in repr
  {
  }

  lemma NewItemInFront(links: seq<Link<ReportItem>>, link: Link<ReportItem>)
    requires OneItemEach(links) && forall l <- links :: l.data != link.data
    ensures OneItemEach([link] + links)
  {
  }

  ghost predicate Unshared(item: ReportItem, passes: seq<Link<Case>>, fails: seq<Link<Case>>)
    reads item
  {
    && (forall i :: 0 <= i < |item.passes| ==> item.passes[i] !in passes && item.passes[i] !in fails)
    && (forall i :: 0 <= i < |item.fails| ==> item.fails[i] !in passes && item.fails[i] !in fails)
  }

  lemma OwnersDiffer(item: ReportItem, other: ReportItem)
    requires item != other
    requires (forall l <- item.passes :: l.owner == item) && (forall l <- item.fails :: l.owner == item)
    requires (forall l <- other.passes :: l.owner == other) && (forall l <- other.fails :: l.owner == other)
    ensures Unshared(item, other.passes, other.fails)
  {
    assert forall i :: 0 <= i < |item.passes| ==> item.passes[i] in item.passes;
    assert forall i :: 0 <= i < |item.fails| ==> item.fails[i] in item.fails;
  }

  /** An item of which nothing was touched. */
  twostate lemma ItemKept(item: ReportItem)
    requires old(item.Valid()) && unchanged(item)
    requires forall i :: 0 <= i < |item.passes| ==> unchanged(item.passes[i])
    requires forall i :: 0 <= i < |item.fails| ==> unchanged(item.fails[i])
    ensures item.Valid() && item.View() == old(item.View())
  {
  }

  lemma StillDistinct(items: seq<Item>, k: nat, test: Case, status: string)
    requires DistinctCategories(items) && k < |items|
    ensures DistinctCategories(items[k := AddCase(items[k], test, status)])
    ensures !Known(status) ==> items[k := AddCase(items[k], test, status)] == items
  {
  }

  ghost predicate DistinctCategories(items: seq<Item>) {
    forall i, j :: 0 <= i < j < |items| ==> items[i].category != items[j].category
  }

  lemma {:induction false} ItemInPlace(items: seq<Item>, category: string)
    ensures Find(items, category) < |items| ==> WithItem(items, category) == items
    ensures Find(items, category) == |items| ==>
              && WithItem(items, category) == [Item(category, [], 0, [])] + items
              && Find(WithItem(items, category), category) == 0
  {
  }

  lemma {:induction false} NewCategoryInFront(items: seq<Item>, category: string)
    requires DistinctCategories(items) && Find(items, category) == |items|
    ensures var all := [Item(category, [], 0, [])] + items;
            WithItem(items, category) == all && DistinctCategories(all)
  {
  }

  lemma {:induction false} FindsFirst(items: seq<Item>, category: string, k: nat)
    requires k <= |items| && forall i :: 0 <= i < k ==> items[i].category != category
    requires k < |items| ==> items[k].category == category
    ensures Find(items, category) == k
  {
  }
}
