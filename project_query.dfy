/** The project query engine: the filter criteria builder, the search
    pipeline (match, derived bookmark count, sort, skip, over-fetching
    limit) and the three fixed-order queries over owned projects,
    memberships and tryouts, each stated over in-memory collections. */
module ProjectQuery {
  import opened Common
  import opened Ordering
  import opened Paging
  import opened ProjectDomain

  // ---------------------------------------------------------------------
  // Criteria builder
  // ---------------------------------------------------------------------

  datatype FilterType = All | Title | JobName

  /** A filter predicate over project documents. */
  datatype Pred =
    | True
    | TitleContains(value: string)
    | SomeJobNameContains(value: string)
    | CreatorIs(userId: string)
    | Or(left: Pred, right: Pred)
    | And(left: Pred, right: Pred)

  /** Some recruitment of `p` has a job name containing `v`; a regular
      expression on an array field matches when one element matches. */
  predicate AnyJobNameContains(p: Project, v: string) {
    exists i | 0 <= i < |p.recruitments| :: Contains(p.recruitments[i].jobName, v)
  }

  predicate Eval(pred: Pred, p: Project) {
    match pred
    case True => true
    case TitleContains(v) => Contains(p.title, v)
    case SomeJobNameContains(v) => AnyJobNameContains(p, v)
    case CreatorIs(u) => p.userId == u
    case Or(l, r) => Eval(l, p) || Eval(r, p)
    case And(l, r) => Eval(l, p) && Eval(r, p)
  }

  /** The characters with a meaning in a regular expression. The filter
      value is pasted unescaped into `.*value.*`, which matches exactly the
      strings containing `value` only when `value` has none of these. */
  const RegexMetacharacters: string := "\\^$.|?*+()[]{}"

  predicate PlainText(v: string) {
    forall i | 0 <= i < |v| :: v[i] !in RegexMetacharacters
  }

  /** Which projects a filter type and value select, ignoring ownership. */
  predicate FilterSelects(filterType: Option<FilterType>, filterValue: Option<string>, p: Project) {
    filterType.None? || filterValue.None? ||
    match filterType.value
    case Title => Contains(p.title, filterValue.value)
    case JobName => AnyJobNameContains(p, filterValue.value)
    case All => Contains(p.title, filterValue.value) || AnyJobNameContains(p, filterValue.value)
  }

  /** The filter a type and value build before ownership scoping: an
      absent type or value matches every project. */
  function BaseCriteria(filterType: Option<FilterType>, filterValue: Option<string>): (c: Pred)
    ensures forall p :: Eval(c, p) <==> FilterSelects(filterType, filterValue, p)
  {
    if filterType.None? || filterValue.None? then True
    else
      match filterType.value
      case All => Or(TitleContains(filterValue.value), SomeJobNameContains(filterValue.value))
      case Title => TitleContains(filterValue.value)
      case JobName => SomeJobNameContains(filterValue.value)
  }

  /** Builds the search filter: `isMy == true` adds "created by the
      requester" with AND, whatever the filter type. */
  function CreateCriteria(filterType: Option<FilterType>, filterValue: Option<string>,
                          userId: string, isMy: Option<bool>): (c: Pred)
    requires filterType.Some? && filterValue.Some? ==> PlainText(filterValue.value)
    ensures forall p :: Eval(c, p) <==>
              FilterSelects(filterType, filterValue, p) && (isMy == Some(true) ==> p.userId == userId)
  {
    var base := BaseCriteria(filterType, filterValue);
    if isMy == Some(true) then And(base, CreatorIs(userId)) else base
  }

  /** The ALL filter selects exactly the union of what TITLE and JOB_NAME
      select for the same value. */
  lemma AllIsTitleOrJobName(v: string, userId: string, isMy: Option<bool>, p: Project)
    requires PlainText(v)
    ensures Eval(CreateCriteria(Some(All), Some(v), userId, isMy), p) <==>
              Eval(CreateCriteria(Some(Title), Some(v), userId, isMy), p) ||
              Eval(CreateCriteria(Some(JobName), Some(v), userId, isMy), p)
  {
  }

  /** With `isMy == true` the filter is the unscoped one AND "created by the
      requester", whatever the filter type; `false` and absent add nothing. */
  lemma ScopeIsConjunction(filterType: Option<FilterType>, filterValue: Option<string>,
                           userId: string, p: Project)
    requires filterType.Some? && filterValue.Some? ==> PlainText(filterValue.value)
    ensures Eval(CreateCriteria(filterType, filterValue, userId, Some(true)), p) <==>
              Eval(CreateCriteria(filterType, filterValue, userId, Some(false)), p) && p.userId == userId
    ensures Eval(CreateCriteria(filterType, filterValue, userId, None), p) <==>
              Eval(CreateCriteria(filterType, filterValue, userId, Some(false)), p)
  {
  }

  // ---------------------------------------------------------------------
  // Search pipeline
  // ---------------------------------------------------------------------

  /** The derived `bookmarkersSize`: the length of the bookmark array, an
      absent array counting as empty. */
  function BookmarkersSize(p: Project): (n: nat)
    ensures n == 0 <==> p.bookmarkers.None? || p.bookmarkers.value == []
    ensures p.bookmarkers.Some? ==> n == |p.bookmarkers.value|
  {
    |p.bookmarkers.GetOr([])|
  }

  /** The direction of the first requested order on `property`, if any. */
  function OrderFor(orders: seq<SortOrder>, property: SortProperty): (d: Option<Direction>)
    ensures d.None? <==> forall i | 0 <= i < |orders| :: orders[i].property != property
    ensures d.Some? ==> exists i | 0 <= i < |orders| ::
              orders[i] == SortOrder(property, d.value) &&
              forall j | 0 <= j < i :: orders[j].property != property
  {
    if orders == [] then None
    else if orders[0].property == property then Some(orders[0].direction)
    else
      var d := OrderFor(orders[1..], property);
      if d.Some? then
        ghost var i :| 0 <= i < |orders[1..]| && orders[1..][i] == SortOrder(property, d.value) &&
                       forall j | 0 <= j < i :: orders[1..][j].property != property;
        assert orders[i + 1] == SortOrder(property, d.value);
        d
      else d
  }

  /** The sort the search pipeline runs: an order on "bookmarkers" becomes
      a sort on the derived count alone, in that order's direction, and every
      other order is dropped; otherwise the requested sort is used as is. */
  function EffectiveSort(orders: seq<SortOrder>): (r: seq<SortOrder>)
    ensures (forall i | 0 <= i < |orders| :: orders[i].property != Bookmarkers) ==> r == orders
    ensures (exists i | 0 <= i < |orders| :: orders[i].property == Bookmarkers) ==>
              |r| == 1 && exists i | 0 <= i < |orders| ::
                orders[i] == r[0] && r[0].property == Bookmarkers &&
                forall j | 0 <= j < i :: orders[j].property != Bookmarkers
  {
    match OrderFor(orders, Bookmarkers)
    case Some(d) => [SortOrder(Bookmarkers, d)]
    case None => orders
  }

  /** The value a sort property reads from a project: the derived count for
      "bookmarkers", and 0 on every row for a field that does not exist. */
  function FieldValue(p: Project, property: SortProperty): int {
    match property
    case Bookmarkers => BookmarkersSize(p)
    case CreatedAt => p.createdAt
    case UpdatedAt => p.updatedAt
    case Unknown(_) => 0
  }

  function Signed(v: int, d: Direction): int {
    if d == Asc then v else -v
  }

  /** The key vector of a project under a list of orders. */
  function SortKey(p: Project, orders: seq<SortOrder>): (k: seq<int>)
    ensures |k| == |orders|
    ensures forall i | 0 <= i < |orders| :: k[i] == Signed(FieldValue(p, orders[i].property), orders[i].direction)
  {
    if orders == [] then []
    else [Signed(FieldValue(p, orders[0].property), orders[0].direction)] + SortKey(p, orders[1..])
  }

  function KeyOf(orders: seq<SortOrder>): Project -> seq<int> {
    (p: Project) => SortKey(p, orders)
  }

  function MatchesSearch(isCompleted: bool, criteria: Pred): Project -> bool {
    (p: Project) => p.isCompleted == isCompleted && Eval(criteria, p)
  }

  /** The projects the search's match stage lets through, in store order. */
  function SearchMatches(store: seq<Project>, isCompleted: bool, criteria: Pred): seq<Project> {
    Filter(store, MatchesSearch(isCompleted, criteria))
  }

  /** The search aggregation: match completion AND criteria, derive the
      bookmark count (read by the sort key), sort, skip, limit. */
  function SearchAggregation(store: seq<Project>, isCompleted: bool, criteria: Pred,
                             page: PageRequest): (r: seq<Project>)
    requires ValidPage(page)
    ensures |r| <= page.pageSize + 1
    ensures forall i | 0 <= i < |r| :: r[i] in store && r[i].isCompleted == isCompleted && Eval(criteria, r[i])
  {
    var matched := SearchMatches(store, isCompleted, criteria);
    var sorted := SortBy(matched, KeyOf(EffectiveSort(page.sort)));
    var out := PageWindow(sorted, page);
    assert forall i | 0 <= i < |out| :: out[i] in store && out[i].isCompleted == isCompleted && Eval(criteria, out[i]) by {
      forall i | 0 <= i < |out|
        ensures out[i] in store && out[i].isCompleted == isCompleted && Eval(criteria, out[i])
      {
        assert out[i] == sorted[SkipCount(page) + i];
        assert out[i] in multiset(matched);
      }
    }
    out
  }

  /** The repository's search entry point: a page of at most `pageSize + 1`
      stored projects with the requested completion flag that the type and
      value filter selects and, when `isMy == true`, that the requester
      created. */
  function FindAllByFilter(store: seq<Project>, isCompleted: bool, filterType: Option<FilterType>,
                           filterValue: Option<string>, userId: string, isMy: Option<bool>,
                           page: PageRequest): (r: seq<Project>)
    requires ValidPage(page)
    requires filterType.Some? && filterValue.Some? ==> PlainText(filterValue.value)
    ensures |r| <= page.pageSize + 1
    ensures forall i | 0 <= i < |r| ::
              r[i] in store && r[i].isCompleted == isCompleted &&
              FilterSelects(filterType, filterValue, r[i]) && (isMy == Some(true) ==> r[i].userId == userId)
  {
    SearchAggregation(store, isCompleted, CreateCriteria(filterType, filterValue, userId, isMy), page)
  }

  /** A project whose title holds the searched value at some position is
      selected by a TITLE search for it. */
  lemma TitleSearchFindsInfix(p: Project, v: string, userId: string, isMy: Option<bool>, at: nat)
    requires PlainText(v) && at + |v| <= |p.title| && p.title[at..at + |v|] == v
    requires isMy == Some(true) ==> p.userId == userId
    ensures Eval(CreateCriteria(Some(Title), Some(v), userId, isMy), p)
  {
    assert OccursAt(p.title, v, at);
  }

  /** Every row of a search page is a stored project with the requested
      completion flag that satisfies the criteria; the page is the window
      at `pageNumber * pageSize` of some order the sort may deliver of the
      matching projects, so it holds at most `pageSize + 1` rows and exactly
      that many when enough projects match. */
  lemma SearchAggregationSpec(store: seq<Project>, isCompleted: bool, criteria: Pred, page: PageRequest)
    requires ValidPage(page)
    ensures var out := SearchAggregation(store, isCompleted, criteria, page);
            forall i | 0 <= i < |out| ::
              out[i] in store && out[i].isCompleted == isCompleted && Eval(criteria, out[i])
    ensures var out := SearchAggregation(store, isCompleted, criteria, page);
            var matched := SearchMatches(store, isCompleted, criteria);
            exists s :: SortedPermutation(s, matched, KeyOf(EffectiveSort(page.sort))) &&
                        out == PageWindow(s, page)
    ensures var out := SearchAggregation(store, isCompleted, criteria, page);
            var n := |SearchMatches(store, isCompleted, criteria)|;
            |out| == if SkipCount(page) >= n then 0
                     else if n - SkipCount(page) <= page.pageSize then n - SkipCount(page)
                     else page.pageSize + 1
    ensures Sorted(SearchAggregation(store, isCompleted, criteria, page), KeyOf(EffectiveSort(page.sort)))
  {
    var matched := SearchMatches(store, isCompleted, criteria);
    var key := KeyOf(EffectiveSort(page.sort));
    var sorted := SortBy(matched, key);
    var out := PageWindow(sorted, page);
    forall i | 0 <= i < |out| ensures out[i] in store && out[i].isCompleted == isCompleted && Eval(criteria, out[i]) {
      assert out[i] == sorted[SkipCount(page) + i];
      assert out[i] in multiset(matched);
    }
    assert SortedPermutation(sorted, matched, key);
    WindowSorted(sorted, SkipCount(page), LimitCount(page), key);
  }

  /** In a sequence sorted by a list of orders the first order's field is
      monotone in that order's direction. */
  lemma FirstOrderMonotone(s: seq<Project>, orders: seq<SortOrder>)
    requires Sorted(s, KeyOf(orders)) && |orders| > 0
    ensures forall i, j | 0 <= i < j < |s| ::
              Signed(FieldValue(s[i], orders[0].property), orders[0].direction) <=
              Signed(FieldValue(s[j], orders[0].property), orders[0].direction)
  {
    forall i, j | 0 <= i < j < |s|
      ensures Signed(FieldValue(s[i], orders[0].property), orders[0].direction) <=
              Signed(FieldValue(s[j], orders[0].property), orders[0].direction)
    {
      assert !LexLess(KeyOf(orders)(s[j]), KeyOf(orders)(s[i]));
    }
  }

  /** An order on "bookmarkers" sorts the page by the derived count alone,
      descending or ascending as requested (other orders are dropped);
      without one, the page is in the order of the requested sort. */
  lemma SearchSortOrder(store: seq<Project>, isCompleted: bool, criteria: Pred, page: PageRequest)
    requires ValidPage(page)
    ensures var out := SearchAggregation(store, isCompleted, criteria, page);
            OrderFor(page.sort, Bookmarkers) == Some(Desc) ==>
              forall i, j | 0 <= i < j < |out| :: BookmarkersSize(out[i]) >= BookmarkersSize(out[j])
    ensures var out := SearchAggregation(store, isCompleted, criteria, page);
            OrderFor(page.sort, Bookmarkers) == Some(Asc) ==>
              forall i, j | 0 <= i < j < |out| :: BookmarkersSize(out[i]) <= BookmarkersSize(out[j])
    ensures OrderFor(page.sort, Bookmarkers).None? ==>
              Sorted(SearchAggregation(store, isCompleted, criteria, page), KeyOf(page.sort))
  {
    SearchAggregationSpec(store, isCompleted, criteria, page);
    var out := SearchAggregation(store, isCompleted, criteria, page);
    if OrderFor(page.sort, Bookmarkers).Some? {
      FirstOrderMonotone(out, EffectiveSort(page.sort));
    }
  }

  // ---------------------------------------------------------------------
  // Owned projects
  // ---------------------------------------------------------------------

  function CreatedDesc(p: Project): seq<int> {
    [-p.createdAt]
  }

  function CreatedBy(userId: string): Project -> bool {
    (p: Project) => p.userId == userId
  }

  /** Projects created by `userId`, newest first, paged; the page's own
      sort is not used. At most `pageSize + 1` of the requester's stored
      projects. */
  function FindProjectByUserIdOrderByCreatedAtDesc(store: seq<Project>, userId: string,
                                                   page: PageRequest): (r: seq<Project>)
    requires ValidPage(page)
    ensures |r| <= page.pageSize + 1
    ensures forall i | 0 <= i < |r| :: r[i] in store && r[i].userId == userId
  {
    var owned := Filter(store, CreatedBy(userId));
    var sorted := SortBy(owned, CreatedDesc);
    var out := PageWindow(sorted, page);
    assert forall i | 0 <= i < |out| :: out[i] in store && out[i].userId == userId by {
      forall i | 0 <= i < |out| ensures out[i] in store && out[i].userId == userId {
        assert out[i] == sorted[SkipCount(page) + i];
        assert out[i] in multiset(owned);
      }
    }
    out
  }

  lemma OwnedProjectsSpec(store: seq<Project>, userId: string, page: PageRequest)
    requires ValidPage(page)
    ensures var out := FindProjectByUserIdOrderByCreatedAtDesc(store, userId, page);
            forall i | 0 <= i < |out| :: out[i] in store && out[i].userId == userId
    ensures var out := FindProjectByUserIdOrderByCreatedAtDesc(store, userId, page);
            forall i, j | 0 <= i < j < |out| :: out[i].createdAt >= out[j].createdAt
    ensures var out := FindProjectByUserIdOrderByCreatedAtDesc(store, userId, page);
            exists s :: SortedPermutation(s, Filter(store, CreatedBy(userId)), CreatedDesc) &&
                        out == PageWindow(s, page)
    ensures var out := FindProjectByUserIdOrderByCreatedAtDesc(store, userId, page);
            var n := |Filter(store, CreatedBy(userId))|;
            |out| == if SkipCount(page) >= n then 0
                     else if n - SkipCount(page) <= page.pageSize then n - SkipCount(page)
                     else page.pageSize + 1
  {
    var owned := Filter(store, CreatedBy(userId));
    var sorted := SortBy(owned, CreatedDesc);
    var out := PageWindow(sorted, page);
    forall i | 0 <= i < |out| ensures out[i] in store && out[i].userId == userId {
      assert out[i] == sorted[SkipCount(page) + i];
      assert out[i] in multiset(owned);
    }
    WindowSorted(sorted, SkipCount(page), LimitCount(page), CreatedDesc);
    forall i, j | 0 <= i < j < |out| ensures out[i].createdAt >= out[j].createdAt {
      assert !LexLess(CreatedDesc(out[j]), CreatedDesc(out[i]));
    }
    assert SortedPermutation(sorted, owned, CreatedDesc);
  }

  // ---------------------------------------------------------------------
  // Joins: foreign-key coercion, lookup and unwind
  // ---------------------------------------------------------------------

  const ObjectIdLength: nat := 24

  predicate IsHexDigit(c: char) {
    '0' <= c <= '9' || 'a' <= c <= 'f' || 'A' <= c <= 'F'
  }

  function LowerHexDigit(c: char): char {
    if 'A' <= c <= 'F' then (c as int - 'A' as int + 'a' as int) as char else c
  }

  /** `$toObjectId` on a string key: the identifier whose hex form is the key
      in lower case, or `None` for a malformed key (where the store raises an
      error that the model leaves unspecified). */
  function ToObjectId(key: string): (r: Option<string>)
    ensures r.Some? <==> |key| == ObjectIdLength && forall i | 0 <= i < |key| :: IsHexDigit(key[i])
    ensures r.Some? ==> (|r.value| == ObjectIdLength &&
              forall i | 0 <= i < |key| :: r.value[i] == LowerHexDigit(key[i]))
  {
    if |key| == ObjectIdLength && forall i | 0 <= i < |key| :: IsHexDigit(key[i]) then
      Some(seq(|key|, i requires 0 <= i < |key| => LowerHexDigit(key[i])))
    else None
  }

  /** No two stored projects share an identifier (the store's primary key). */
  predicate UniqueIds(projects: seq<Project>) {
    forall i, j | 0 <= i < j < |projects| :: projects[i].id != projects[j].id
  }

  /** Every child row's foreign key can be coerced. */
  predicate KeysWellFormed<C>(children: seq<C>, foreignKey: C -> string) {
    forall i | 0 <= i < |children| :: ToObjectId(foreignKey(children[i])).Some?
  }

  /** The lookup-then-unwind of one child row: one pair per project with
      the coerced identifier, in collection order. */
  function Lookup<C>(child: C, id: string, projects: seq<Project>): (r: seq<(C, Project)>)
    ensures forall i | 0 <= i < |r| :: r[i].0 == child && r[i].1 in projects && r[i].1.id == id
    ensures (forall i | 0 <= i < |projects| :: projects[i].id != id) ==> r == []
    ensures (exists i | 0 <= i < |projects| :: projects[i].id == id) ==> |r| > 0
    ensures UniqueIds(projects) ==> |r| <= 1
    ensures forall j | 0 <= j < |projects| && projects[j].id == id :: (child, projects[j]) in r
  {
    if projects == [] then []
    else
      var rest := Lookup(child, id, projects[1..]);
      assert forall j | 1 <= j < |projects| :: projects[j] == projects[1..][j - 1];
      if projects[0].id == id then
        assert UniqueIds(projects) ==> forall i | 0 <= i < |projects[1..]| :: projects[1..][i].id != id by {
          if UniqueIds(projects) {
            forall i | 0 <= i < |projects[1..]| ensures projects[1..][i].id != id {
              assert projects[1..][i] == projects[i + 1];
            }
          }
        }
        [(child, projects[0])] + rest
      else
        assert (exists i | 0 <= i < |projects| :: projects[i].id == id) ==>
               (exists i | 0 <= i < |projects[1..]| :: projects[1..][i].id == id) by {
          if exists i | 0 <= i < |projects| :: projects[i].id == id {
            var i :| 0 <= i < |projects| && projects[i].id == id;
            assert projects[1..][i - 1].id == id;
          }
        }
        assert UniqueIds(projects) ==> UniqueIds(projects[1..]) by {
          if UniqueIds(projects) {
            forall i, j | 0 <= i < j < |projects[1..]| ensures projects[1..][i].id != projects[1..][j].id {
              assert projects[1..][i] == projects[i + 1] && projects[1..][j] == projects[j + 1];
            }
          }
        }
        rest
  }

  /** The coerce, lookup and unwind stages over child rows: an inner join,
      so a child with no project yields no row. */
  function Unwind<C>(children: seq<C>, foreignKey: C -> string, projects: seq<Project>): (r: seq<(C, Project)>)
    requires KeysWellFormed(children, foreignKey)
    ensures forall i | 0 <= i < |r| ::
              r[i].0 in children && r[i].1 in projects &&
              ToObjectId(foreignKey(r[i].0)) == Some(r[i].1.id)
    ensures UniqueIds(projects) ==> |r| <= |children|
    ensures forall i, j | 0 <= i < |children| && 0 <= j < |projects| &&
                          ToObjectId(foreignKey(children[i])) == Some(projects[j].id) ::
              (children[i], projects[j]) in r
  {
    if children == [] then []
    else
      assert forall i | 1 <= i < |children| :: children[i] == children[1..][i - 1];
      var here := Lookup(children[0], ToObjectId(foreignKey(children[0])).value, projects);
      var rest := Unwind(children[1..], foreignKey, projects);
      assert forall i | 0 <= i < |rest| :: rest[i].0 in children by {
        forall i | 0 <= i < |rest| ensures rest[i].0 in children {
          var j :| 0 <= j < |children[1..]| && children[1..][j] == rest[i].0;
          assert children[j + 1] == rest[i].0;
        }
      }
      here + rest
  }

  function OnChild<C>(childKey: C -> seq<int>): ((C, Project)) -> seq<int> {
    (pair: (C, Project)) => childKey(pair.0)
  }

  lemma SortedAppend<T>(a: seq<T>, b: seq<T>, key: T -> seq<int>)
    requires Sorted(a, key) && Sorted(b, key)
    requires forall i, j | 0 <= i < |a| && 0 <= j < |b| :: !LexLess(key(b[j]), key(a[i]))
    ensures Sorted(a + b, key)
  {
    var r := a + b;
    forall i, j | 0 <= i < j < |r| ensures !LexLess(key(r[j]), key(r[i])) {
      if j < |a| {
        assert r[i] == a[i] && r[j] == a[j];
      } else if i >= |a| {
        assert r[i] == b[i - |a|] && r[j] == b[j - |a|];
      } else {
        assert r[i] == a[i] && r[j] == b[j - |a|];
      }
    }
  }

  /** Joined rows come out in the order of the child rows they come from. */
  lemma {:induction false} UnwindSorted<C>(children: seq<C>, foreignKey: C -> string,
                                          projects: seq<Project>, childKey: C -> seq<int>)
    requires KeysWellFormed(children, foreignKey)
    requires Sorted(children, childKey)
    ensures Sorted(Unwind(children, foreignKey, projects), OnChild(childKey))
    decreases |children|
  {
    if children != [] {
      var c := children[0];
      var here := Lookup(c, ToObjectId(foreignKey(c)).value, projects);
      var rest := Unwind(children[1..], foreignKey, projects);
      var key := OnChild(childKey);
      assert Sorted(children[1..], childKey) by {
        forall i, j | 0 <= i < j < |children[1..]|
          ensures !LexLess(childKey(children[1..][j]), childKey(children[1..][i]))
        {
          assert children[1..][i] == children[i + 1] && children[1..][j] == children[j + 1];
        }
      }
      UnwindSorted(children[1..], foreignKey, projects, childKey);
      LexLessIrreflexive(childKey(c));
      assert Sorted(here, key);
      forall i, j | 0 <= i < |here| && 0 <= j < |rest| ensures !LexLess(key(rest[j]), key(here[i])) {
        var k :| 0 <= k < |children[1..]| && children[1..][k] == rest[j].0;
        assert children[k + 1] == rest[j].0;
      }
      SortedAppend(here, rest, key);
    }
  }

  /** The `$replaceRoot` stage of a join: the joined project becomes the row. */
  function JoinedProject<C>(pair: (C, Project)): Project {
    pair.1
  }

  function CompletedIs(isCompleted: bool): Project -> bool {
    (p: Project) => p.isCompleted == isCompleted
  }

  function PairCompletedIs<C>(isCompleted: bool): ((C, Project)) -> bool {
    (pair: (C, Project)) => pair.1.isCompleted == isCompleted
  }

  /** The child stages of a join query: the child documents `keep` selects,
      sorted by `childKey`, skipped and limited. */
  function ChildWindow<C>(children: seq<C>, keep: C -> bool, childKey: C -> seq<int>,
                          page: PageRequest): (w: seq<C>)
    requires ValidPage(page)
    ensures |w| <= page.pageSize + 1
    ensures forall i | 0 <= i < |w| :: w[i] in children && keep(w[i])
  {
    var selected := Filter(children, keep);
    var sorted := SortBy(selected, childKey);
    assert forall x | x in sorted :: x in children && keep(x) by {
      forall x | x in sorted ensures x in children && keep(x) {
        assert x in multiset(selected);
      }
    }
    PageWindow(sorted, page)
  }

  function PairChild<C>(pair: (C, Project)): C {
    pair.0
  }

  /** `c`'s key names a stored project with the requested completion flag. */
  function JoinsWith<C>(foreignKey: C -> string, projects: seq<Project>, isCompleted: bool): C -> bool {
    (c: C) => exists j | 0 <= j < |projects| ::
                ToObjectId(foreignKey(c)) == Some(projects[j].id) && projects[j].isCompleted == isCompleted
  }

  /** With unique ids, one child contributes itself to the completion-filtered
      join exactly when its key names a project with the requested flag. */
  lemma JoinedChildHead<C>(c: C, foreignKey: C -> string, projects: seq<Project>, isCompleted: bool)
    requires ToObjectId(foreignKey(c)).Some? && UniqueIds(projects)
    ensures Map(Filter(Lookup(c, ToObjectId(foreignKey(c)).value, projects), PairCompletedIs(isCompleted)),
                PairChild)
            == if JoinsWith(foreignKey, projects, isCompleted)(c) then [c] else []
  {
    var id := ToObjectId(foreignKey(c)).value;
    var here := Lookup(c, id, projects);
    var keep := PairCompletedIs(isCompleted);
    if here == [] {
      assert Filter(here, keep) == [];
      assert !JoinsWith(foreignKey, projects, isCompleted)(c);
    } else {
      var p := here[0].1;
      assert here == [(c, p)];
      var k :| 0 <= k < |projects| && projects[k] == p;
      assert JoinsWith(foreignKey, projects, isCompleted)(c) <==> p.isCompleted == isCompleted by {
        if JoinsWith(foreignKey, projects, isCompleted)(c) {
          var j :| 0 <= j < |projects| && ToObjectId(foreignKey(c)) == Some(projects[j].id) &&
                   projects[j].isCompleted == isCompleted;
          assert j == k;
        }
      }
      assert Filter(here, keep) == if keep((c, p)) then [(c, p)] else [];
    }
  }

  /** With unique ids, the children behind the completion-filtered join are,
      in order, exactly the children whose key names a project with the
      requested flag: one pair per such child and none for any other. */
  lemma {:induction false} JoinedChildren<C>(children: seq<C>, foreignKey: C -> string, projects: seq<Project>,
                                            isCompleted: bool)
    requires KeysWellFormed(children, foreignKey) && UniqueIds(projects)
    ensures Map(Filter(Unwind(children, foreignKey, projects), PairCompletedIs(isCompleted)), PairChild)
            == Filter(children, JoinsWith(foreignKey, projects, isCompleted))
    decreases |children|
  {
    if children != [] {
      var c := children[0];
      var keep := PairCompletedIs(isCompleted);
      var here := Lookup(c, ToObjectId(foreignKey(c)).value, projects);
      var rest := Unwind(children[1..], foreignKey, projects);
      assert KeysWellFormed(children[1..], foreignKey) by {
        forall i | 0 <= i < |children[1..]| ensures ToObjectId(foreignKey(children[1..][i])).Some? {
          assert children[1..][i] == children[i + 1];
        }
      }
      assert Unwind(children, foreignKey, projects) == here + rest;
      JoinedChildren(children[1..], foreignKey, projects, isCompleted);
      JoinedChildHead(c, foreignKey, projects, isCompleted);
      FilterAppend(here, rest, keep);
      var fh := Filter(here, keep);
      var fr := Filter(rest, keep);
      assert Map(fh + fr, PairChild) == Map(fh, PairChild) + Map(fr, PairChild);
    }
  }

  /** The (child, project) pairs behind the rows of a join page, row by row:
      the joined pairs whose project has the requested completion flag. */
  function JoinSources<C>(children: seq<C>, keep: C -> bool, childKey: C -> seq<int>,
                          foreignKey: C -> string, projects: seq<Project>, isCompleted: bool,
                          page: PageRequest): (src: seq<(C, Project)>)
    requires ValidPage(page)
    requires KeysWellFormed(ChildWindow(children, keep, childKey, page), foreignKey)
    ensures forall i | 0 <= i < |src| ::
              src[i].0 in ChildWindow(children, keep, childKey, page) && src[i].1 in projects &&
              src[i].1.isCompleted == isCompleted && ToObjectId(foreignKey(src[i].0)) == Some(src[i].1.id)
  {
    Filter(Unwind(ChildWindow(children, keep, childKey, page), foreignKey, projects),
           PairCompletedIs(isCompleted))
  }

  /** The child window is the page window of some order a sort by the child
      key may deliver; it holds only selected children, in key order. */
  lemma ChildWindowSpec<C>(children: seq<C>, keep: C -> bool, childKey: C -> seq<int>, page: PageRequest)
    requires ValidPage(page)
    ensures exists s :: SortedPermutation(s, Filter(children, keep), childKey) &&
                        ChildWindow(children, keep, childKey, page) == PageWindow(s, page)
    ensures var w := ChildWindow(children, keep, childKey, page);
            forall i | 0 <= i < |w| :: w[i] in children && keep(w[i])
    ensures Sorted(ChildWindow(children, keep, childKey, page), childKey)
  {
    var selected := Filter(children, keep);
    var sorted := SortBy(selected, childKey);
    var w := ChildWindow(children, keep, childKey, page);
    assert SortedPermutation(sorted, selected, childKey);
    forall i | 0 <= i < |w| ensures w[i] in children && keep(w[i]) {
      assert w[i] == sorted[SkipCount(page) + i];
      assert w[i] in multiset(selected);
    }
    WindowSorted(sorted, SkipCount(page), LimitCount(page), childKey);
  }

  /** Every source pair of a join page is a child of the page's child
      window and the project its key names, with the requested completion
      flag; pairs are in child key order, and with unique project ids there
      are at most `pageSize + 1` of them. */
  lemma JoinSourcesSpec<C>(children: seq<C>, keep: C -> bool, childKey: C -> seq<int>,
                           foreignKey: C -> string, projects: seq<Project>, isCompleted: bool,
                           page: PageRequest)
    requires ValidPage(page)
    requires KeysWellFormed(ChildWindow(children, keep, childKey, page), foreignKey)
    ensures var src := JoinSources(children, keep, childKey, foreignKey, projects, isCompleted, page);
            forall i | 0 <= i < |src| ::
              src[i].0 in ChildWindow(children, keep, childKey, page) &&
              src[i].0 in children && keep(src[i].0) && src[i].1 in projects &&
              src[i].1.isCompleted == isCompleted &&
              ToObjectId(foreignKey(src[i].0)) == Some(src[i].1.id)
    ensures Sorted(JoinSources(children, keep, childKey, foreignKey, projects, isCompleted, page),
                   OnChild(childKey))
    ensures UniqueIds(projects) ==>
              |JoinSources(children, keep, childKey, foreignKey, projects, isCompleted, page)|
              <= page.pageSize + 1
  {
    var w := ChildWindow(children, keep, childKey, page);
    var joined := Unwind(w, foreignKey, projects);
    UnwindSorted(w, foreignKey, projects, childKey);
    FilterSorted(joined, PairCompletedIs(isCompleted), OnChild(childKey));
  }

  /** Every window child and project its key names with the requested flag
      form a source pair, and with unique project ids the pairs come, one
      each and in order, from exactly the window children whose key names a
      project with the flag. */
  lemma JoinSourcesComplete<C>(children: seq<C>, keep: C -> bool, childKey: C -> seq<int>,
                               foreignKey: C -> string, projects: seq<Project>, isCompleted: bool,
                               page: PageRequest)
    requires ValidPage(page)
    requires KeysWellFormed(ChildWindow(children, keep, childKey, page), foreignKey)
    ensures var w := ChildWindow(children, keep, childKey, page);
            var src := JoinSources(children, keep, childKey, foreignKey, projects, isCompleted, page);
            forall i, j | 0 <= i < |w| && 0 <= j < |projects| &&
                          ToObjectId(foreignKey(w[i])) == Some(projects[j].id) &&
                          projects[j].isCompleted == isCompleted ::
              (w[i], projects[j]) in src
    ensures UniqueIds(projects) ==>
              Map(JoinSources(children, keep, childKey, foreignKey, projects, isCompleted, page), PairChild) ==
              Filter(ChildWindow(children, keep, childKey, page), JoinsWith(foreignKey, projects, isCompleted))
  {
    var w := ChildWindow(children, keep, childKey, page);
    var joined := Unwind(w, foreignKey, projects);
    var src := Filter(joined, PairCompletedIs(isCompleted));
    forall i, j | 0 <= i < |w| && 0 <= j < |projects| &&
                  ToObjectId(foreignKey(w[i])) == Some(projects[j].id) && projects[j].isCompleted == isCompleted
      ensures (w[i], projects[j]) in src
    {
      FilterContains(joined, PairCompletedIs(isCompleted), (w[i], projects[j]));
    }
    if UniqueIds(projects) {
      JoinedChildren(w, foreignKey, projects, isCompleted);
    }
  }

  /** Pairs in child-key order, where the key is a negated timestamp, are
      newest first. */
  lemma NewestFirst<C>(src: seq<(C, Project)>, childKey: C -> seq<int>)
    requires Sorted(src, OnChild(childKey))
    requires forall c :: |childKey(c)| == 1
    ensures forall i, j | 0 <= i < j < |src| :: -childKey(src[i].0)[0] >= -childKey(src[j].0)[0]
  {
    forall i, j | 0 <= i < j < |src| ensures -childKey(src[i].0)[0] >= -childKey(src[j].0)[0] {
      assert !LexLess(OnChild(childKey)(src[j]), OnChild(childKey)(src[i]));
    }
  }

  // ---------------------------------------------------------------------
  // Membership join
  // ---------------------------------------------------------------------

  function MemberOf(userId: string): ProjectMember -> bool {
    (m: ProjectMember) => m.userId == userId
  }

  function MemberCreatedDesc(m: ProjectMember): seq<int> {
    [-m.createdAt]
  }

  function MemberProjectId(m: ProjectMember): string {
    m.projectId
  }

  /** The requester's membership records, newest first, skipped and limited. */
  function MemberWindow(members: seq<ProjectMember>, userId: string, page: PageRequest): seq<ProjectMember>
    requires ValidPage(page)
  {
    ChildWindow(members, MemberOf(userId), MemberCreatedDesc, page)
  }

  /** Projects the requester is a member of: paging happens on membership
      records before the join, and the completion filter after it. */
  function FindProjectsByProjectMemberUserIdAndIsCompletedOrderByCreatedAtDesc(
    members: seq<ProjectMember>, projects: seq<Project>, userId: string, isCompleted: bool,
    page: PageRequest): (r: seq<Project>)
    requires ValidPage(page)
    requires KeysWellFormed(MemberWindow(members, userId, page), MemberProjectId)
    ensures forall i | 0 <= i < |r| :: r[i] in projects && r[i].isCompleted == isCompleted
  {
    var joined := Unwind(MemberWindow(members, userId, page), MemberProjectId, projects);
    Filter(Map(joined, JoinedProject), CompletedIs(isCompleted))
  }

  /** The membership records behind a membership page, row by row. */
  function MembershipSources(members: seq<ProjectMember>, projects: seq<Project>, userId: string,
                             isCompleted: bool, page: PageRequest): seq<(ProjectMember, Project)>
    requires ValidPage(page)
    requires KeysWellFormed(MemberWindow(members, userId, page), MemberProjectId)
  {
    JoinSources(members, MemberOf(userId), MemberCreatedDesc, MemberProjectId, projects, isCompleted, page)
  }

  /** A membership page is the projects of its source records, in order. */
  lemma MembershipRows(members: seq<ProjectMember>, projects: seq<Project>, userId: string,
                       isCompleted: bool, page: PageRequest)
    requires ValidPage(page)
    requires KeysWellFormed(MemberWindow(members, userId, page), MemberProjectId)
    ensures FindProjectsByProjectMemberUserIdAndIsCompletedOrderByCreatedAtDesc(
              members, projects, userId, isCompleted, page) ==
            Map(MembershipSources(members, projects, userId, isCompleted, page), JoinedProject)
  {
    var joined := Unwind(MemberWindow(members, userId, page), MemberProjectId, projects);
    FilterMap(joined, JoinedProject, CompletedIs(isCompleted), PairCompletedIs(isCompleted));
  }

  /** Row i of a membership page is the project of the i-th source record:
      a membership of the requester in the page's membership window (the
      requester's memberships, newest first, from `pageNumber * pageSize`
      on) whose key names that project; the page holds only projects with
      the requested completion flag, in membership-creation order, newest
      first, and at most `pageSize + 1` rows (a page may be short or empty
      although more memberships exist). */
  lemma MembershipSpec(members: seq<ProjectMember>, projects: seq<Project>, userId: string,
                       isCompleted: bool, page: PageRequest)
    requires ValidPage(page)
    requires KeysWellFormed(MemberWindow(members, userId, page), MemberProjectId)
    ensures var out := FindProjectsByProjectMemberUserIdAndIsCompletedOrderByCreatedAtDesc(
                         members, projects, userId, isCompleted, page);
            var src := MembershipSources(members, projects, userId, isCompleted, page);
            |src| == |out| &&
            forall i | 0 <= i < |out| ::
              out[i] == src[i].1 && out[i] in projects && out[i].isCompleted == isCompleted &&
              src[i].0 in MemberWindow(members, userId, page) &&
              src[i].0 in members && src[i].0.userId == userId &&
              ToObjectId(src[i].0.projectId) == Some(out[i].id)
    ensures var src := MembershipSources(members, projects, userId, isCompleted, page);
            forall i, j | 0 <= i < j < |src| :: src[i].0.createdAt >= src[j].0.createdAt
    ensures UniqueIds(projects) ==>
              |FindProjectsByProjectMemberUserIdAndIsCompletedOrderByCreatedAtDesc(
                 members, projects, userId, isCompleted, page)| <= page.pageSize + 1
  {
    var src := MembershipSources(members, projects, userId, isCompleted, page);
    MembershipRows(members, projects, userId, isCompleted, page);
    JoinSourcesSpec(members, MemberOf(userId), MemberCreatedDesc, MemberProjectId, projects, isCompleted, page);
    NewestFirst(src, MemberCreatedDesc);
  }

  /** Every membership in the page's window whose key names a project with
      the requested completion flag yields that project's row, and with
      unique project ids the page has exactly one row per such membership. */
  lemma MembershipComplete(members: seq<ProjectMember>, projects: seq<Project>, userId: string,
                           isCompleted: bool, page: PageRequest)
    requires ValidPage(page)
    requires KeysWellFormed(MemberWindow(members, userId, page), MemberProjectId)
    ensures var out := FindProjectsByProjectMemberUserIdAndIsCompletedOrderByCreatedAtDesc(
                         members, projects, userId, isCompleted, page);
            var w := MemberWindow(members, userId, page);
            var src := MembershipSources(members, projects, userId, isCompleted, page);
            forall i, j | 0 <= i < |w| && 0 <= j < |projects| &&
                          ToObjectId(w[i].projectId) == Some(projects[j].id) &&
                          projects[j].isCompleted == isCompleted ::
              (w[i], projects[j]) in src && projects[j] in out
    ensures UniqueIds(projects) ==>
              |FindProjectsByProjectMemberUserIdAndIsCompletedOrderByCreatedAtDesc(
                 members, projects, userId, isCompleted, page)| ==
              |Filter(MemberWindow(members, userId, page), JoinsWith(MemberProjectId, projects, isCompleted))|
  {
    var out := FindProjectsByProjectMemberUserIdAndIsCompletedOrderByCreatedAtDesc(
                 members, projects, userId, isCompleted, page);
    var src := MembershipSources(members, projects, userId, isCompleted, page);
    var w := MemberWindow(members, userId, page);
    MembershipRows(members, projects, userId, isCompleted, page);
    JoinSourcesComplete(members, MemberOf(userId), MemberCreatedDesc, MemberProjectId, projects, isCompleted, page);
    forall i, j | 0 <= i < |w| && 0 <= j < |projects| &&
                  ToObjectId(w[i].projectId) == Some(projects[j].id) && projects[j].isCompleted == isCompleted
      ensures projects[j] in out
    {
      MapContains(src, JoinedProject, (w[i], projects[j]));
    }
  }

  /** When every windowed membership names a project with the requested
      flag and project ids are unique, the page has a row for every windowed
      membership, so `pageSize + 1` rows whenever the requester's
      memberships continue past the page: with 20 such memberships and
      page size 10, page 0 has 11 rows. */
  lemma MembershipFullPage(members: seq<ProjectMember>, projects: seq<Project>, userId: string,
                           isCompleted: bool, page: PageRequest)
    requires ValidPage(page)
    requires KeysWellFormed(MemberWindow(members, userId, page), MemberProjectId)
    requires UniqueIds(projects)
    requires forall i | 0 <= i < |MemberWindow(members, userId, page)| ::
               JoinsWith(MemberProjectId, projects, isCompleted)(MemberWindow(members, userId, page)[i])
    ensures |FindProjectsByProjectMemberUserIdAndIsCompletedOrderByCreatedAtDesc(
               members, projects, userId, isCompleted, page)| == |MemberWindow(members, userId, page)|
    ensures |Filter(members, MemberOf(userId))| > SkipCount(page) + page.pageSize ==>
              |FindProjectsByProjectMemberUserIdAndIsCompletedOrderByCreatedAtDesc(
                 members, projects, userId, isCompleted, page)| == page.pageSize + 1
  {
    var selected := Filter(members, MemberOf(userId));
    var w := MemberWindow(members, userId, page);
    MembershipComplete(members, projects, userId, isCompleted, page);
    FilterAll(w, JoinsWith(MemberProjectId, projects, isCompleted));
    assert |SortBy(selected, MemberCreatedDesc)| == |selected| by {
      assert |multiset(SortBy(selected, MemberCreatedDesc))| == |multiset(selected)|;
    }
  }

  /** When no stored project has the requested completion flag the page is
      empty, however many memberships the requester has. */
  lemma MembershipPageEmptyWithoutFlag(members: seq<ProjectMember>, projects: seq<Project>, userId: string,
                                       isCompleted: bool, page: PageRequest)
    requires ValidPage(page)
    requires KeysWellFormed(MemberWindow(members, userId, page), MemberProjectId)
    requires forall i | 0 <= i < |projects| :: projects[i].isCompleted != isCompleted
    ensures FindProjectsByProjectMemberUserIdAndIsCompletedOrderByCreatedAtDesc(
              members, projects, userId, isCompleted, page) == []
  {
    var joined := Map(Unwind(MemberWindow(members, userId, page), MemberProjectId, projects), JoinedProject);
    forall i | 0 <= i < |joined| ensures !CompletedIs(isCompleted)(joined[i]) {
      assert joined[i] in projects;
    }
    FilterNone(joined, CompletedIs(isCompleted));
  }

  /** The completion filter runs after paging, so a page can be empty
      although the requester's membership window is not: one membership
      whose project is completed, asked for with `isCompleted == false`. */
  lemma MembershipPageCanBeEmpty()
    ensures var key := "0123456789abcdef01234567";
            var m := ProjectMember(None, None, None, "member", "name", None, None, None, key, 0);
            var p := Project(key, "owner", "title", None, "", [], None, true, 0, 0);
            var page := PageRequest(0, 10, []);
            && ValidPage(page)
            && MemberWindow([m], "member", page) == [m]
            && KeysWellFormed([m], MemberProjectId)
            && FindProjectsByProjectMemberUserIdAndIsCompletedOrderByCreatedAtDesc(
                 [m], [p], "member", false, page) == []
  {
    var key := "0123456789abcdef01234567";
    var m := ProjectMember(None, None, None, "member", "name", None, None, None, key, 0);
    var p := Project(key, "owner", "title", None, "", [], None, true, 0, 0);
    var page := PageRequest(0, 10, []);
    assert Filter([m], MemberOf("member")) == [m];
    assert SortBy([m], MemberCreatedDesc) == [m];
    assert forall i | 0 <= i < |key| :: IsHexDigit(key[i]);
    assert KeysWellFormed([m], MemberProjectId);
    MembershipPageEmptyWithoutFlag([m], [p], "member", false, page);
  }

  // ---------------------------------------------------------------------
  // Tryout join with projection
  // ---------------------------------------------------------------------

  function TryoutOf(userId: string, status: TryoutStatus): TryoutDoc -> bool {
    (t: TryoutDoc) => t.userId == userId && t.tryoutStatus == status
  }

  function TryoutCreatedDesc(t: TryoutDoc): seq<int> {
    [-t.createdAt]
  }

  function TryoutProjectId(t: TryoutDoc): string {
    t.projectId
  }

  /** The projection stage: id, creator, title, thumbnail, description and
      completion flag come from the project, everything else from the tryout. */
  function ProjectTryoutRow(pair: (TryoutDoc, Project)): (r: ProjectWithProjectTryout)
    ensures r.id == pair.1.id && r.projectCreatedBy == pair.1.userId && r.title == pair.1.title
    ensures r.thumbNailUrl == pair.1.thumbNailUrl && r.description == pair.1.description
    ensures r.isCompleted == pair.1.isCompleted
    ensures r.resumeId == pair.0.resumeId && r.userId == pair.0.userId && r.userName == pair.0.userName
    ensures r.userSelfDescription == pair.0.userSelfDescription
    ensures r.userProfileImageUrl == pair.0.userProfileImageUrl
    ensures r.positionName == pair.0.positionName && r.tryoutStatus == pair.0.tryoutStatus
  {
    var (t, p) := pair;
    ProjectWithProjectTryout(p.id, p.userId, p.title, p.thumbNailUrl, p.description, p.isCompleted,
                             t.resumeId, t.userId, t.userName, t.userSelfDescription,
                             t.userProfileImageUrl, t.positionName, t.tryoutStatus)
  }

  function RowCompletedIs(isCompleted: bool): ProjectWithProjectTryout -> bool {
    (r: ProjectWithProjectTryout) => r.isCompleted == isCompleted
  }

  /** The requester's tryouts in the requested status, newest first,
      skipped and limited. */
  function TryoutWindow(tryouts: seq<TryoutDoc>, userId: string, status: TryoutStatus,
                        page: PageRequest): seq<TryoutDoc>
    requires ValidPage(page)
  {
    ChildWindow(tryouts, TryoutOf(userId, status), TryoutCreatedDesc, page)
  }

  /** Tryouts of the requester in the requested status joined with their
      projects: paging on tryouts before the join, projection, then the
      completion filter. */
  function FindProjectsByProjectTryoutUserIdAndIsCompletedOrderByCreatedAtDesc(
    tryouts: seq<TryoutDoc>, projects: seq<Project>, userId: string, isCompleted: bool,
    status: TryoutStatus, page: PageRequest): (r: seq<ProjectWithProjectTryout>)
    requires ValidPage(page)
    requires KeysWellFormed(TryoutWindow(tryouts, userId, status, page), TryoutProjectId)
    ensures forall i | 0 <= i < |r| :: r[i].isCompleted == isCompleted
  {
    var joined := Unwind(TryoutWindow(tryouts, userId, status, page), TryoutProjectId, projects);
    Filter(Map(joined, ProjectTryoutRow), RowCompletedIs(isCompleted))
  }

  /** The (tryout, project) pairs behind a tryout page, row by row. */
  function TryoutSources(tryouts: seq<TryoutDoc>, projects: seq<Project>, userId: string,
                         isCompleted: bool, status: TryoutStatus, page: PageRequest)
    : seq<(TryoutDoc, Project)>
    requires ValidPage(page)
    requires KeysWellFormed(TryoutWindow(tryouts, userId, status, page), TryoutProjectId)
  {
    JoinSources(tryouts, TryoutOf(userId, status), TryoutCreatedDesc, TryoutProjectId, projects,
                isCompleted, page)
  }

  /** A tryout page is the projection of its source pairs, in order. */
  lemma TryoutRows(tryouts: seq<TryoutDoc>, projects: seq<Project>, userId: string,
                   isCompleted: bool, status: TryoutStatus, page: PageRequest)
    requires ValidPage(page)
    requires KeysWellFormed(TryoutWindow(tryouts, userId, status, page), TryoutProjectId)
    ensures FindProjectsByProjectTryoutUserIdAndIsCompletedOrderByCreatedAtDesc(
              tryouts, projects, userId, isCompleted, status, page) ==
            Map(TryoutSources(tryouts, projects, userId, isCompleted, status, page), ProjectTryoutRow)
  {
    var joined := Unwind(TryoutWindow(tryouts, userId, status, page), TryoutProjectId, projects);
    FilterMap(joined, ProjectTryoutRow, RowCompletedIs(isCompleted), PairCompletedIs(isCompleted));
  }

  /** Row i of a tryout page is the projection of the i-th source pair: a
      tryout of the requester in the requested status, in the page's tryout
      window, and the project its key names, which has the requested
      completion flag; rows are in tryout-creation order, newest first, and
      there are at most `pageSize + 1` of them. */
  lemma TryoutSpec(tryouts: seq<TryoutDoc>, projects: seq<Project>, userId: string,
                   isCompleted: bool, status: TryoutStatus, page: PageRequest)
    requires ValidPage(page)
    requires KeysWellFormed(TryoutWindow(tryouts, userId, status, page), TryoutProjectId)
    ensures var out := FindProjectsByProjectTryoutUserIdAndIsCompletedOrderByCreatedAtDesc(
                         tryouts, projects, userId, isCompleted, status, page);
            var src := TryoutSources(tryouts, projects, userId, isCompleted, status, page);
            |src| == |out| &&
            forall i | 0 <= i < |out| ::
              out[i] == ProjectTryoutRow(src[i]) &&
              src[i].0 in TryoutWindow(tryouts, userId, status, page) &&
              src[i].0 in tryouts && src[i].1 in projects &&
              ToObjectId(src[i].0.projectId) == Some(src[i].1.id) &&
              src[i].0.userId == userId && src[i].0.tryoutStatus == status &&
              src[i].1.isCompleted == isCompleted
    ensures var src := TryoutSources(tryouts, projects, userId, isCompleted, status, page);
            forall i, j | 0 <= i < j < |src| :: src[i].0.createdAt >= src[j].0.createdAt
    ensures UniqueIds(projects) ==>
              |FindProjectsByProjectTryoutUserIdAndIsCompletedOrderByCreatedAtDesc(
                 tryouts, projects, userId, isCompleted, status, page)| <= page.pageSize + 1
  {
    var src := TryoutSources(tryouts, projects, userId, isCompleted, status, page);
    TryoutRows(tryouts, projects, userId, isCompleted, status, page);
    JoinSourcesSpec(tryouts, TryoutOf(userId, status), TryoutCreatedDesc, TryoutProjectId, projects,
                    isCompleted, page);
    NewestFirst(src, TryoutCreatedDesc);
  }

  /** Every tryout in the page's window whose key names a project with the
      requested completion flag yields its row, and with unique project ids
      the page has exactly one row per such tryout. */
  lemma TryoutComplete(tryouts: seq<TryoutDoc>, projects: seq<Project>, userId: string,
                       isCompleted: bool, status: TryoutStatus, page: PageRequest)
    requires ValidPage(page)
    requires KeysWellFormed(TryoutWindow(tryouts, userId, status, page), TryoutProjectId)
    ensures var out := FindProjectsByProjectTryoutUserIdAndIsCompletedOrderByCreatedAtDesc(
                         tryouts, projects, userId, isCompleted, status, page);
            var w := TryoutWindow(tryouts, userId, status, page);
            var src := TryoutSources(tryouts, projects, userId, isCompleted, status, page);
            forall i, j | 0 <= i < |w| && 0 <= j < |projects| &&
                          ToObjectId(w[i].projectId) == Some(projects[j].id) &&
                          projects[j].isCompleted == isCompleted ::
              (w[i], projects[j]) in src && ProjectTryoutRow((w[i], projects[j])) in out
    ensures UniqueIds(projects) ==>
              |FindProjectsByProjectTryoutUserIdAndIsCompletedOrderByCreatedAtDesc(
                 tryouts, projects, userId, isCompleted, status, page)| ==
              |Filter(TryoutWindow(tryouts, userId, status, page), JoinsWith(TryoutProjectId, projects, isCompleted))|
  {
    var out := FindProjectsByProjectTryoutUserIdAndIsCompletedOrderByCreatedAtDesc(
                 tryouts, projects, userId, isCompleted, status, page);
    var src := TryoutSources(tryouts, projects, userId, isCompleted, status, page);
    var w := TryoutWindow(tryouts, userId, status, page);
    TryoutRows(tryouts, projects, userId, isCompleted, status, page);
    JoinSourcesComplete(tryouts, TryoutOf(userId, status), TryoutCreatedDesc, TryoutProjectId, projects,
                        isCompleted, page);
    forall i, j | 0 <= i < |w| && 0 <= j < |projects| &&
                  ToObjectId(w[i].projectId) == Some(projects[j].id) && projects[j].isCompleted == isCompleted
      ensures ProjectTryoutRow((w[i], projects[j])) in out
    {
      MapContains(src, ProjectTryoutRow, (w[i], projects[j]));
    }
  }

  /** A row built from a tryout the class writes shows the tryout's resume,
      user, self description, position and status, and no profile image. */
  lemma StoredTryoutRow(t: ProjectTryout, p: Project)
    ensures var r := ProjectTryoutRow((t.ToDoc(), p));
            && r.id == p.id && r.isCompleted == p.isCompleted
            && r.resumeId == t.resumeId && r.userId == t.userId && r.userName == t.userName
            && r.userSelfDescription == t.userSelfDescription && r.positionName == t.positionName
            && r.tryoutStatus == t.tryoutStatus && r.userProfileImageUrl.None?
  {
  }
}
