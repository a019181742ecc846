/**
 * The read-only views of the expense ledger: the sidebar filter, the monthly
 * and per-category summaries, the top spending categories and the budget alert.
 */
module ExpenseQueries {
  import opened Wrappers
  import opened Dates
  import opened PyStr
  import opened Grouping
  import opened ExpenseRecords

  // ---------------------------------------------------------------- filter

  /** The filter's test: the date lies in [start, end], both ends included, and the category is selected. */
  predicate Selected(r: Record, start: Date, end: Date, cats: set<Category>) {
    DateLe(start, r.date) && DateLe(r.date, end) && r.category in cats
  }

  /** The records that pass the filter, in ledger order. */
  function Filter(rs: seq<Record>, start: Date, end: Date, cats: set<Category>): (r: seq<Record>)
    ensures |r| <= |rs|
  {
    if rs == [] then []
    else
      var init := Filter(rs[..|rs| - 1], start, end, cats);
      var last := rs[|rs| - 1];
      if Selected(last, start, end, cats) then init + [last] else init
  }

  /** The filter shows exactly the ledger's records that pass its test. */
  lemma {:induction false} FilterMembers(rs: seq<Record>, start: Date, end: Date, cats: set<Category>)
    ensures forall x :: x in Filter(rs, start, end, cats) <==> x in rs && Selected(x, start, end, cats)
  {
    if rs != [] {
      var init := rs[..|rs| - 1];
      FilterMembers(init, start, end, cats);
      assert rs == init + [rs[|rs| - 1]];
    }
  }

  /** Filtering keeps ledger order: it distributes over a split of the ledger. */
  lemma {:induction false} FilterAppend(a: seq<Record>, b: seq<Record>, start: Date, end: Date, cats: set<Category>)
    ensures Filter(a + b, start, end, cats) == Filter(a, start, end, cats) + Filter(b, start, end, cats)
    decreases |b|
  {
    if b == [] {
      assert a + b == a;
    } else {
      var b' := b[..|b| - 1];
      assert (a + b)[..|a + b| - 1] == a + b';
      FilterAppend(a, b', start, end, cats);
    }
  }

  /** Filtering an already filtered view with the same settings changes nothing. */
  lemma {:induction false} FilterIdempotent(rs: seq<Record>, start: Date, end: Date, cats: set<Category>)
    ensures Filter(Filter(rs, start, end, cats), start, end, cats) == Filter(rs, start, end, cats)
  {
    if rs != [] {
      var init := rs[..|rs| - 1];
      var last := rs[|rs| - 1];
      FilterIdempotent(init, start, end, cats);
      if Selected(last, start, end, cats) {
        FilterAppend(Filter(init, start, end, cats), [last], start, end, cats);
        assert Filter([last], start, end, cats) == [last] by {
          assert [last][..0] == [];
        }
      }
    }
  }

  /**
   * The ledger positions of the records the filter shows, in order: the row
   * identities the per-row delete buttons carry.
   */
  function ShownPositions(rs: seq<Record>, start: Date, end: Date, cats: set<Category>): (ps: seq<nat>)
    ensures forall k :: 0 <= k < |ps| ==> ps[k] < |rs|
    ensures forall k, l :: 0 <= k < l < |ps| ==> ps[k] < ps[l]
  {
    if rs == [] then []
    else
      var n := |rs| - 1;
      var init := ShownPositions(rs[..n], start, end, cats);
      if Selected(rs[n], start, end, cats) then init + [n] else init
  }

  /**
   * The k-th shown position holds the k-th filtered record, and a position is
   * shown exactly when its record passes the filter.
   */
  lemma {:induction false} ShownPositionsSpec(rs: seq<Record>, start: Date, end: Date, cats: set<Category>)
    ensures |ShownPositions(rs, start, end, cats)| == |Filter(rs, start, end, cats)|
    ensures forall k :: 0 <= k < |ShownPositions(rs, start, end, cats)| ==>
              rs[ShownPositions(rs, start, end, cats)[k]] == Filter(rs, start, end, cats)[k]
    ensures forall i :: 0 <= i < |rs| ==> (i in ShownPositions(rs, start, end, cats) <==> Selected(rs[i], start, end, cats))
  {
    if rs != [] {
      var n := |rs| - 1;
      var ps, init := ShownPositions(rs, start, end, cats), ShownPositions(rs[..n], start, end, cats);
      var f, finit := Filter(rs, start, end, cats), Filter(rs[..n], start, end, cats);
      ShownPositionsSpec(rs[..n], start, end, cats);
      var sel := Selected(rs[n], start, end, cats);
      assert ps == if sel then init + [n] else init;
      assert f == if sel then finit + [rs[n]] else finit;
      forall k | 0 <= k < |ps| ensures rs[ps[k]] == f[k] {
        if k < |init| {
          assert ps[k] == init[k] && f[k] == finit[k];
          assert rs[..n][init[k]] == rs[init[k]];
        }
      }
      forall i | 0 <= i < |rs| ensures (i in ps <==> Selected(rs[i], start, end, cats)) {
        if i < n {
          assert rs[..n][i] == rs[i];
          assert i in ps <==> i in init;
        } else {
          assert n !in init;
        }
      }
    }
  }

  // ------------------------------------------------ default filter settings

  /** The earliest date in the ledger: the default start of the date range. */
  function EarliestDate(rs: seq<Record>): (d: Date)
    requires rs != []
    ensures exists i :: 0 <= i < |rs| && rs[i].date == d
    ensures forall i :: 0 <= i < |rs| ==> DateLe(d, rs[i].date)
  {
    if |rs| == 1 then rs[0].date
    else
      var m := EarliestDate(rs[1..]);
      assert forall i :: 1 <= i < |rs| ==> rs[i] == rs[1..][i - 1];
      if DateLe(rs[0].date, m) then rs[0].date else m
  }

  /** The latest date in the ledger: the default end of the date range. */
  function LatestDate(rs: seq<Record>): (d: Date)
    requires rs != []
    ensures exists i :: 0 <= i < |rs| && rs[i].date == d
    ensures forall i :: 0 <= i < |rs| ==> DateLe(rs[i].date, d)
  {
    if |rs| == 1 then rs[0].date
    else
      var m := LatestDate(rs[1..]);
      assert forall i :: 1 <= i < |rs| ==> rs[i] == rs[1..][i - 1];
      if DateLe(m, rs[0].date) then rs[0].date else m
  }

  /** The distinct categories of the ledger: the default category selection. */
  function Categories(rs: seq<Record>): (cats: set<Category>)
    ensures forall i :: 0 <= i < |rs| ==> rs[i].category in cats
    ensures forall c :: c in cats ==> exists i :: 0 <= i < |rs| && rs[i].category == c
  {
    set r | r in rs :: r.category
  }

  /** With the default range and every category selected, the filter shows the whole ledger. */
  lemma {:induction false} DefaultFilterShowsAll(rs: seq<Record>)
    requires rs != []
    ensures Filter(rs, EarliestDate(rs), LatestDate(rs), Categories(rs)) == rs
  {
    var start, end, cats := EarliestDate(rs), LatestDate(rs), Categories(rs);
    AllSelectedKeepsAll(rs, start, end, cats);
  }

  /** A filter every record passes keeps the ledger as it is. */
  lemma {:induction false} AllSelectedKeepsAll(rs: seq<Record>, start: Date, end: Date, cats: set<Category>)
    requires forall i :: 0 <= i < |rs| ==> Selected(rs[i], start, end, cats)
    ensures Filter(rs, start, end, cats) == rs
  {
    if rs != [] {
      AllSelectedKeepsAll(rs[..|rs| - 1], start, end, cats);
    }
  }

  // ------------------------------------------------------ monthly summary

  function MonthKey(r: Record): int { MonthOf(r.date) }

  function Amount(r: Record): real { r.amount }

  predicate IntLt(a: int, b: int) { a < b }

  /** Amounts summed per monthly period, in ascending period order. */
  function MonthlySummary(rs: seq<Record>): (r: seq<Group<int>>)
    ensures StrictlySorted(r, IntLt)
  {
    GroupSumSpec(rs, MonthKey, Amount, IntLt);
    GroupSum(rs, MonthKey, Amount, IntLt)
  }

  /**
   * The monthly summary (in ascending month order by its own contract) has
   * one row per month present; each row's total is the sum of that month's
   * amounts, and the totals add up to the sum of all amounts.
   */
  lemma MonthlySummarySpec(rs: seq<Record>)
    ensures Keys(MonthlySummary(rs)) == set r | r in rs :: MonthOf(r.date)
    ensures forall i :: 0 <= i < |MonthlySummary(rs)| ==>
              MonthlySummary(rs)[i].total == SumWhere(rs, MonthKey, Amount, MonthlySummary(rs)[i].key)
    ensures Totals(MonthlySummary(rs)) == Sum(rs, Amount)
  {
    GroupSumSpec(rs, MonthKey, Amount, IntLt);
    assert (set r | r in rs :: MonthKey(r)) == set r | r in rs :: MonthOf(r.date);
  }

  // ---------------------------------------------------- category summary

  /** The category of a record, missing or not. */
  function CategoryOf(r: Record): Category { r.category }

  /** The category name of a record that has one. */
  function CategoryName(r: Record): string {
    match r.category
    case Some(c) => c
    case None => ""
  }

  /** The category names present in the ledger; a missing category is no name. */
  function CategoryNames(rs: seq<Record>): set<string> {
    set r | r in rs && r.category.Some? :: r.category.value
  }

  /** The records that have a category, in ledger order: grouping leaves out rows whose key is missing. */
  function Categorised(rs: seq<Record>): (r: seq<Record>)
    ensures |r| <= |rs|
  {
    if rs == [] then [] else (if rs[0].category.Some? then [rs[0]] else []) + Categorised(rs[1..])
  }

  /**
   * The categorised records are exactly the ledger's records with a category;
   * their amounts per name are the ledger's amounts for that category, and
   * with the uncategorised amounts they make up the ledger's total.
   */
  lemma {:induction false} CategorisedSpec(rs: seq<Record>)
    ensures forall x :: x in Categorised(rs) <==> x in rs && x.category.Some?
    ensures forall c :: SumWhere(Categorised(rs), CategoryName, Amount, c) == SumWhere(rs, CategoryOf, Amount, Some(c))
    ensures Sum(Categorised(rs), Amount) + SumWhere(rs, CategoryOf, Amount, None) == Sum(rs, Amount)
  {
    if rs != [] {
      var rest := Categorised(rs[1..]);
      CategorisedSpec(rs[1..]);
      assert rs == [rs[0]] + rs[1..];
      if rs[0].category.Some? {
        assert ([rs[0]] + rest)[1..] == rest;
      } else {
        assert [] + rest == rest;
      }
    }
  }

  /**
   * A category typed as "N/A" is a name in its session; once saved and read
   * back it is missing, and the record leaves the category summary.
   */
  lemma NaCategoryExample(d: Date)
    ensures CategorySummary([Record(d, Some("N/A"), 5.0, "")]) == [Group("N/A", 5.0)]
    ensures CategorySummary(ReadBack([Record(d, Some("N/A"), 5.0, "")])) == []
  {
    var rs := [Record(d, Some("N/A"), 5.0, "")];
    assert rs[1..] == [];
    assert Categorised(rs) == rs;
    assert GroupSum(rs, CategoryName, Amount, StrLt) == AddTo([], "N/A", 5.0, StrLt);
    var back := ReadBack(rs);
    assert back == [Record(d, None, 5.0, "")];
    assert back[1..] == [];
    assert Categorised(back) == [];
  }

  lemma StrLtIsStrictTotalOrder()
    ensures StrictTotalOrder(StrLt)
  {
    forall a ensures !StrLt(a, a) { StrLtIrreflexive(a); }
    forall a, b, c | StrLt(a, b) && StrLt(b, c) ensures StrLt(a, c) { StrLtTransitive(a, b, c); }
    forall a, b | a != b ensures StrLt(a, b) || StrLt(b, a) { StrLtTotal(a, b); }
  }

  /** Amounts summed per category, categories in string order; records without a category are left out. */
  function CategorySummary(rs: seq<Record>): (r: seq<Group<string>>)
    ensures StrictlySorted(r, StrLt)
  {
    StrLtIsStrictTotalOrder();
    GroupSumSpec(Categorised(rs), CategoryName, Amount, StrLt);
    GroupSum(Categorised(rs), CategoryName, Amount, StrLt)
  }

  /**
   * The category summary (in string order by its own contract) has one row
   * per category name present, each with the sum of that category's amounts;
   * the amounts of records without a category are in no row.
   */
  lemma CategorySummarySpec(rs: seq<Record>)
    ensures Keys(CategorySummary(rs)) == CategoryNames(rs)
    ensures forall i :: 0 <= i < |CategorySummary(rs)| ==>
              CategorySummary(rs)[i].total == SumWhere(rs, CategoryOf, Amount, Some(CategorySummary(rs)[i].key))
    ensures Totals(CategorySummary(rs)) == Sum(rs, Amount) - SumWhere(rs, CategoryOf, Amount, None)
  {
    var cs := Categorised(rs);
    var gs := CategorySummary(rs);
    assert gs == GroupSum(cs, CategoryName, Amount, StrLt);
    StrLtIsStrictTotalOrder();
    GroupSumSpec(cs, CategoryName, Amount, StrLt);
    CategorisedSpec(rs);
    CategorisedNames(rs);
  }

  /** The names of the categorised records are the ledger's category names. */
  lemma CategorisedNames(rs: seq<Record>)
    ensures (set r | r in Categorised(rs) :: CategoryName(r)) == CategoryNames(rs)
  {
    CategorisedSpec(rs);
  }

  /**
   * A record with a blank Category cell is kept by the filter and counted in
   * its month, but it is in no row of the category summary.
   */
  lemma BlankCategoryExample(d: Date)
    ensures Filter([Record(d, None, 5.0, "")], d, d, {None}) == [Record(d, None, 5.0, "")]
    ensures MonthlySummary([Record(d, None, 5.0, "")]) == [Group(MonthOf(d), 5.0)]
    ensures CategorySummary([Record(d, None, 5.0, "")]) == []
  {
    var rs := [Record(d, None, 5.0, "")];
    assert rs[..0] == [] && rs[1..] == [];
    assert GroupSum(rs, MonthKey, Amount, IntLt) == AddTo([], MonthOf(d), 5.0, IntLt);
    assert Categorised(rs) == [];
  }

  // ------------------------------------------------------ top categories

  /** How many categories the top spending chart shows. */
  const TopCount: nat := 5

  /** The five categories with the largest totals, largest first. */
  function TopCategories(rs: seq<Record>): (r: seq<Group<string>>)
    ensures |r| <= TopCount && NonIncreasing(r)
  {
    Top(CategorySummary(rs), TopCount)
  }

  /**
   * Five rows, or one per category name when there are fewer, all of them
   * rows of the category summary, and no omitted category has a larger total
   * than a listed one (the order is `TopCategories`' own contract).
   */
  lemma TopCategoriesSpec(rs: seq<Record>)
    ensures |TopCategories(rs)| == Min(TopCount, |CategoryNames(rs)|)
    ensures multiset(TopCategories(rs)) <= multiset(CategorySummary(rs))
    ensures forall g, t :: g in multiset(CategorySummary(rs)) - multiset(TopCategories(rs)) && t in TopCategories(rs) ==>
              g.total <= t.total
  {
    StrLtIsStrictTotalOrder();
    CategorySummarySpec(rs);
    SortedKeysCount(CategorySummary(rs), StrLt);
  }

  // ---------------------------------------------------------------- budget

  /** The stored monthly budget, or 0 when no budget has been saved. */
  function LoadBudget(stored: Option<real>): (b: real)
    ensures stored.None? ==> b == 0.0
    ensures stored.Some? ==> b == stored.value
  {
    match stored
    case None => 0.0
    case Some(b) => b
  }

  /** What the budget check shows. */
  datatype BudgetStatus =
    | NotChecked                 // no positive budget: nothing is shown
    | Exceeded(months: seq<int>) // the months whose total is over the budget, in month order
    | WithinBudget               // a positive budget no month exceeds

  /** The summary rows whose total is strictly above the budget, in order. */
  function OverBudget(monthly: seq<Group<int>>, budget: real): (over: seq<Group<int>>)
    ensures forall g :: g in over <==> g in monthly && g.total > budget
    ensures |over| <= |monthly|
  {
    if monthly == [] then []
    else
      var rest := OverBudget(monthly[1..], budget);
      assert monthly == [monthly[0]] + monthly[1..];
      if monthly[0].total > budget then [monthly[0]] + rest else rest
  }

  function MonthsOf(gs: seq<Group<int>>): (ms: seq<int>)
    ensures |ms| == |gs| && forall i :: 0 <= i < |gs| ==> ms[i] == gs[i].key
  {
    if gs == [] then [] else [gs[0].key] + MonthsOf(gs[1..])
  }

  /**
   * The budget alert: only a positive budget is checked; then the months shown
   * are exactly those whose total is strictly above it, and when there are none
   * every month is within budget.
   */
  function BudgetAlert(monthly: seq<Group<int>>, budget: real): (s: BudgetStatus)
    ensures s.NotChecked? <==> budget <= 0.0
    ensures s.WithinBudget? <==> budget > 0.0 && forall g :: g in monthly ==> g.total <= budget
    ensures s.Exceeded? ==> s.months != []
    ensures s.Exceeded? ==> forall m :: m in s.months <==> exists g :: g in monthly && g.key == m && g.total > budget
  {
    if budget > 0.0 then
      var over := OverBudget(monthly, budget);
      if over != [] then
        var ms := MonthsOf(over);
        assert forall m :: m in ms ==> exists g :: g in over && g.key == m;
        assert forall g :: g in over ==> g.key in ms by {
          forall g | g in over ensures g.key in ms {
            var i :| 0 <= i < |over| && over[i] == g;
            assert ms[i] == g.key;
          }
        }
        Exceeded(ms)
      else
        WithinBudget
    else NotChecked
  }

  /** With no budget saved the alert is off, whatever the months hold. */
  lemma NoBudgetNoAlert(monthly: seq<Group<int>>)
    ensures BudgetAlert(monthly, LoadBudget(None)) == NotChecked
  {
  }

  /** Picking the rows over budget keeps ascending month order. */
  lemma {:induction false} OverBudgetAscending(monthly: seq<Group<int>>, budget: real)
    requires StrictlySorted(monthly, IntLt)
    ensures StrictlySorted(OverBudget(monthly, budget), IntLt)
  {
    if monthly != [] {
      var rest := monthly[1..];
      OverBudgetAscending(rest, budget);
      forall g | g in OverBudget(rest, budget) ensures monthly[0].key < g.key {
        var j :| 0 <= j < |rest| && rest[j] == g;
        assert monthly[j + 1] == g;
      }
    }
  }

  /** The months flagged are listed in ascending order when the summary is. */
  lemma ExceededMonthsAscending(monthly: seq<Group<int>>, budget: real)
    requires StrictlySorted(monthly, IntLt)
    ensures BudgetAlert(monthly, budget).Exceeded? ==>
              forall i, j :: 0 <= i < j < |BudgetAlert(monthly, budget).months| ==>
                BudgetAlert(monthly, budget).months[i] < BudgetAlert(monthly, budget).months[j]
  {
    OverBudgetAscending(monthly, budget);
  }

  /**
   * Two January expenses of 100 and 50 and a February one of 30, against a
   * budget of 120: January totals 150 and is the one month flagged.
   */
  lemma JanuaryOverBudgetExample()
    ensures var rs := [Record(Date(2024, 1, 5), Some("Food"), 100.0, ""),
                       Record(Date(2024, 1, 20), Some("Food"), 50.0, ""),
                       Record(Date(2024, 2, 1), Some("Transport"), 30.0, "")];
            && MonthlySummary(rs) == [Group(MonthOf(Date(2024, 1, 1)), 150.0), Group(MonthOf(Date(2024, 2, 1)), 30.0)]
            && BudgetAlert(MonthlySummary(rs), 120.0) == Exceeded([MonthOf(Date(2024, 1, 1))])
  {
    var rs := [Record(Date(2024, 1, 5), Some("Food"), 100.0, ""),
               Record(Date(2024, 1, 20), Some("Food"), 50.0, ""),
               Record(Date(2024, 2, 1), Some("Transport"), 30.0, "")];
    var jan, feb := MonthOf(Date(2024, 1, 1)), MonthOf(Date(2024, 2, 1));
    assert MonthKey(rs[0]) == jan && MonthKey(rs[1]) == jan && MonthKey(rs[2]) == feb;
    assert rs[2..] == [rs[2]] && rs[2..][1..] == [];
    assert GroupSum(rs[2..][1..], MonthKey, Amount, IntLt) == [];
    assert MonthlySummary(rs[2..]) == AddTo([], feb, 30.0, IntLt) == [Group(feb, 30.0)];
    assert rs[1..][1..] == rs[2..];
    assert MonthlySummary(rs[1..]) == AddTo([Group(feb, 30.0)], jan, 50.0, IntLt);
    assert MonthlySummary(rs[1..]) == [Group(jan, 50.0), Group(feb, 30.0)];
    assert MonthlySummary(rs) == AddTo([Group(jan, 50.0), Group(feb, 30.0)], jan, 100.0, IntLt);
    var monthly := [Group(jan, 150.0), Group(feb, 30.0)];
    assert MonthlySummary(rs) == monthly;
    assert monthly[1..][1..] == [];
    assert OverBudget(monthly[1..], 120.0) == [];
    assert OverBudget(monthly, 120.0) == [Group(jan, 150.0)];
    assert MonthsOf([Group(jan, 150.0)]) == [jan];
  }
}
