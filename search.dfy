/** The search contract of the category store: filter by terms, sort by a field in
    a direction, and cut out one page, counting every match. */
module Search {
  import opened Wrappers
  import opened Strings
  import opened Validation
  import opened Categories

  /** CategorySearchQuery(page, perPage, terms, sort, direction). */
  datatype SearchQuery = SearchQuery(page: int, perPage: int, terms: Option<string>,
                                     sort: string, direction: string)

  /** Pagination(currentPage, perPage, total, items). */
  datatype Pagination<+T> = Pagination(currentPage: int, perPage: int, total: nat, items: seq<T>)

  /** Pagination.map(f): the same page metadata, each item replaced by its image, in order. */
  function MapItems<T, U>(p: Pagination<T>, f: T -> U): (q: Pagination<U>)
    ensures q.currentPage == p.currentPage && q.perPage == p.perPage && q.total == p.total
    ensures |q.items| == |p.items|
    ensures forall i :: 0 <= i < |p.items| ==> q.items[i] == f(p.items[i])
  {
    Pagination(p.currentPage, p.perPage, p.total, seq(|p.items|, i requires 0 <= i < |p.items| => f(p.items[i])))
  }

  /** The properties of a stored category that a query may sort on. */
  datatype SortField = IdField | NameField | DescriptionField | ActiveField
                     | CreatedAtField | UpdatedAtField | DeletedAtField

  /** The property's name as a query spells it. */
  function FieldName(f: SortField): string {
    match f
    case IdField => "id"
    case NameField => "name"
    case DescriptionField => "description"
    case ActiveField => "active"
    case CreatedAtField => "createdAt"
    case UpdatedAtField => "updatedAt"
    case DeletedAtField => "deletedAt"
  }

  /** The property a sort string names, if any; the match is exact. */
  function ParseSortField(s: string): (f: Option<SortField>)
    ensures f.Some? ==> FieldName(f.value) == s
  {
    if s == "id" then Some(IdField)
    else if s == "name" then Some(NameField)
    else if s == "description" then Some(DescriptionField)
    else if s == "active" then Some(ActiveField)
    else if s == "createdAt" then Some(CreatedAtField)
    else if s == "updatedAt" then Some(UpdatedAtField)
    else if s == "deletedAt" then Some(DeletedAtField)
    else None
  }

  /** Every property is recognised by its own name. */
  lemma ParseFieldName(f: SortField)
    ensures ParseSortField(FieldName(f)) == Some(f)
  {
  }

  datatype Direction = Asc | Desc

  /** "asc" or "desc", in any ASCII letter case. */
  function ParseDirection(s: string): (d: Option<Direction>)
    ensures d == Some(Asc) <==> Lower(s) == "asc"
    ensures d == Some(Desc) <==> Lower(s) == "desc"
  {
    var l := Lower(s);
    if l == "asc" then Some(Asc) else if l == "desc" then Some(Desc) else None
  }

  /** The value a row is sorted by. Null sorts before every other value. */
  datatype SortValue = Null | Flag(b: bool) | Time(t: int) | Str(s: string)

  function Rank(v: SortValue): nat {
    match v
    case Null => 0
    case Flag(_) => 1
    case Time(_) => 2
    case Str(_) => 3
  }

  /** Ascending order on sort values; text compares ignoring ASCII letter case. */
  predicate ValueLe(a: SortValue, b: SortValue) {
    if Rank(a) != Rank(b) then Rank(a) < Rank(b)
    else match a
      case Null => true
      case Flag(x) => !x || b.b
      case Time(x) => x <= b.t
      case Str(x) => LexLe(Lower(x), Lower(b.s))
  }

  lemma ValueLeTotal(a: SortValue, b: SortValue)
    ensures ValueLe(a, b) || ValueLe(b, a)
  {
    if a.Str? && b.Str? {
      LexLeTotal(Lower(a.s), Lower(b.s));
    }
  }

  lemma ValueLeTransitive(a: SortValue, b: SortValue, c: SortValue)
    requires ValueLe(a, b) && ValueLe(b, c)
    ensures ValueLe(a, c)
  {
    if a.Str? && b.Str? && c.Str? {
      LexLeTransitive(Lower(a.s), Lower(b.s), Lower(c.s));
    }
  }

  function OptionalText(v: Option<string>): SortValue {
    if v.Some? then Str(v.value) else Null
  }

  function OptionalTime(v: Option<int>): SortValue {
    if v.Some? then Time(v.value) else Null
  }

  /** The value of the sort property in a row. */
  function KeyOf(r: CategoryRow, f: SortField): SortValue {
    match f
    case IdField => Str(r.id.value)
    case NameField => OptionalText(r.name)
    case DescriptionField => OptionalText(r.description)
    case ActiveField => Flag(r.active)
    case CreatedAtField => Time(r.createdAt)
    case UpdatedAtField => Time(r.updatedAt)
    case DeletedAtField => OptionalTime(r.deletedAt)
  }

  /** a may come before b when sorting on f in direction d. */
  predicate RowLe(f: SortField, d: Direction, a: CategoryRow, b: CategoryRow) {
    if d == Asc then ValueLe(KeyOf(a, f), KeyOf(b, f)) else ValueLe(KeyOf(b, f), KeyOf(a, f))
  }

  lemma RowLeTotal(f: SortField, d: Direction, a: CategoryRow, b: CategoryRow)
    ensures RowLe(f, d, a, b) || RowLe(f, d, b, a)
  {
    ValueLeTotal(KeyOf(a, f), KeyOf(b, f));
  }

  lemma RowLeTransitive(f: SortField, d: Direction, a: CategoryRow, b: CategoryRow, c: CategoryRow)
    requires RowLe(f, d, a, b) && RowLe(f, d, b, c)
    ensures RowLe(f, d, a, c)
  {
    if d == Asc {
      ValueLeTransitive(KeyOf(a, f), KeyOf(b, f), KeyOf(c, f));
    } else {
      ValueLeTransitive(KeyOf(c, f), KeyOf(b, f), KeyOf(a, f));
    }
  }

  predicate Sorted(f: SortField, d: Direction, s: seq<CategoryRow>) {
    forall i, j :: 0 <= i < j < |s| ==> RowLe(f, d, s[i], s[j])
  }

  /** x placed before the first row it may precede. */
  function Insert(f: SortField, d: Direction, x: CategoryRow, s: seq<CategoryRow>): (r: seq<CategoryRow>)
    ensures multiset(r) == multiset(s) + multiset{x}
  {
    if s == [] then [x]
    else if RowLe(f, d, x, s[0]) then [x] + s
    else
      assert s == [s[0]] + s[1..];
      [s[0]] + Insert(f, d, x, s[1..])
  }

  /** The rows ordered on f in direction d; rows with equal keys keep their order. */
  function SortRows(f: SortField, d: Direction, s: seq<CategoryRow>): (r: seq<CategoryRow>)
    ensures multiset(r) == multiset(s)
  {
    if s == [] then []
    else
      assert s == [s[0]] + s[1..];
      Insert(f, d, s[0], SortRows(f, d, s[1..]))
  }

  /** A row that may precede every row of an ordered list may be put in front of it. */
  lemma PrependSorted(f: SortField, d: Direction, y: CategoryRow, t: seq<CategoryRow>)
    requires Sorted(f, d, t)
    requires forall k :: 0 <= k < |t| ==> RowLe(f, d, y, t[k])
    ensures Sorted(f, d, [y] + t)
  {
    var r := [y] + t;
    forall i, j | 0 <= i < j < |r|
      ensures RowLe(f, d, r[i], r[j])
    {
      assert r[j] == t[j - 1];
      if i > 0 {
        assert r[i] == t[i - 1];
      }
    }
  }

  lemma {:induction false} InsertSorted(f: SortField, d: Direction, x: CategoryRow, s: seq<CategoryRow>)
    requires Sorted(f, d, s)
    ensures Sorted(f, d, Insert(f, d, x, s))
  {
    if s == [] {
    } else if RowLe(f, d, x, s[0]) {
      forall k | 0 <= k < |s|
        ensures RowLe(f, d, x, s[k])
      {
        if k > 0 {
          RowLeTransitive(f, d, x, s[0], s[k]);
        }
      }
      PrependSorted(f, d, x, s);
    } else {
      RowLeTotal(f, d, x, s[0]);
      assert Sorted(f, d, s[1..]) by {
        forall i, j | 0 <= i < j < |s[1..]|
          ensures RowLe(f, d, s[1..][i], s[1..][j])
        {
          assert s[1..][i] == s[i + 1] && s[1..][j] == s[j + 1];
        }
      }
      InsertSorted(f, d, x, s[1..]);
      var tail := Insert(f, d, x, s[1..]);
      forall k | 0 <= k < |tail|
        ensures RowLe(f, d, s[0], tail[k])
      {
        assert tail[k] in multiset(tail);
        if tail[k] != x {
          assert tail[k] in multiset(s[1..]);
          var m :| 0 <= m < |s[1..]| && s[1..][m] == tail[k];
          assert s[m + 1] == tail[k];
        }
      }
      PrependSorted(f, d, s[0], tail);
    }
  }

  /** "ZON" finds "Amazon": the term is compared ignoring letter case. */
  lemma TermMatchesNameIgnoringCase(r: CategoryRow)
    requires r.name == Some("Amazon")
    ensures Matches(r, Some("ZON"))
  {
    var n := r.name.value;
    assert "ZON"[0] == 'Z';
    assert n[3..6] == "zon";
    assert Lower("zon") == Lower("ZON");
    ContainsIgnoringCase(n, "ZON", 3);
  }

  /** "crianças" finds the category whose description mentions it, whatever its name. */
  lemma TermMatchesDescription(r: CategoryRow)
    requires r.description == Some("Categoria para crianças")
    ensures Matches(r, Some("crianças"))
  {
    var d := r.description.value;
    assert "crianças"[0] == 'c';
    assert d[15..23] == "crianças";
    ContainsIgnoringCase(d, "crianças", 15);
  }

  /** The result of SortRows is ordered. */
  lemma {:induction false} SortRowsSorted(f: SortField, d: Direction, s: seq<CategoryRow>)
    ensures Sorted(f, d, SortRows(f, d, s))
  {
    if s != [] {
      SortRowsSorted(f, d, s[1..]);
      InsertSorted(f, d, s[0], SortRows(f, d, s[1..]));
    }
  }

  /** A term filters only when it is present and not blank. */
  predicate Filtering(terms: Option<string>) {
    terms.Some? && !IsBlank(terms.value)
  }

  /** A row matches when there is no filter, or when the term occurs in its name
      or in its description, ignoring ASCII letter case. */
  predicate Matches(r: CategoryRow, terms: Option<string>)
    ensures !Filtering(terms) ==> Matches(r, terms)
    ensures Filtering(terms) && r.name.None? && r.description.None? ==> !Matches(r, terms)
    ensures terms.Some? && r.name.Some? && Lower(r.name.value) == Lower(terms.value) ==> Matches(r, terms)
  {
    || !Filtering(terms)
    || (r.name.Some? && Contains(Lower(r.name.value), Lower(terms.value)))
    || (r.description.Some? && Contains(Lower(r.description.value), Lower(terms.value)))
  }

  /** a is b with some elements left out, the rest kept in their order. */
  predicate Subsequence<T(==)>(a: seq<T>, b: seq<T>) {
    a == [] || (b != [] && ((a[0] == b[0] && Subsequence(a[1..], b[1..])) || Subsequence(a, b[1..])))
  }

  /** The matching rows, each as often as it is stored, in their original order. */
  function Filter(rows: seq<CategoryRow>, terms: Option<string>): (r: seq<CategoryRow>)
    ensures |r| <= |rows|
    ensures forall x :: x in r <==> x in rows && Matches(x, terms)
    ensures forall x :: multiset(r)[x] == if Matches(x, terms) then multiset(rows)[x] else 0
    ensures Subsequence(r, rows)
    ensures !Filtering(terms) ==> r == rows
  {
    if rows == [] then []
    else
      assert rows == [rows[0]] + rows[1..];
      if Matches(rows[0], terms) then [rows[0]] + Filter(rows[1..], terms)
      else Filter(rows[1..], terms)
  }

  /** Where page number page of size perPage starts in a list of length n. */
  function PageStart(n: nat, page: nat, perPage: nat): (start: nat)
    ensures start <= n
  {
    if page * perPage < n then page * perPage else n
  }

  /** Page number page of size perPage: the items from page * perPage on, at most perPage of them. */
  function Window<T>(s: seq<T>, page: nat, perPage: nat): (w: seq<T>)
    ensures |w| == if page * perPage >= |s| then 0
                   else if |s| - page * perPage < perPage then |s| - page * perPage
                   else perPage
    ensures forall i :: 0 <= i < |w| ==> w[i] == s[page * perPage + i]
  {
    var start := PageStart(|s|, page, perPage);
    var stop := if start + perPage < |s| then start + perPage else |s|;
    s[start..stop]
  }

  /** Pages 0 to n - 1, one after the other. */
  function Pages<T>(s: seq<T>, perPage: nat, n: nat): seq<T> {
    if n == 0 then [] else Pages(s, perPage, n - 1) + Window(s, n - 1, perPage)
  }

  /** Reading the first n pages in turn gives the first n * perPage items, no item
      skipped or repeated. */
  lemma {:induction false} PagesCover<T>(s: seq<T>, perPage: nat, n: nat)
    ensures Pages(s, perPage, n) == s[..PageStart(|s|, n, perPage)]
  {
    if n > 0 {
      PagesCover(s, perPage, n - 1);
      var a := PageStart(|s|, n - 1, perPage);
      var b := PageStart(|s|, n, perPage);
      assert (n - 1) * perPage + perPage == n * perPage;
      assert s[..b] == s[..a] + s[a..b];
    }
  }

  /** Once the pages reach past the end, they hold exactly every item. */
  lemma PagesCoverAll<T>(s: seq<T>, perPage: nat, n: nat)
    requires |s| <= n * perPage
    ensures Pages(s, perPage, n) == s
  {
    PagesCover(s, perPage, n);
    assert s[..|s|] == s;
  }

  /** A piece of an ordered list is ordered. */
  lemma WindowSorted(f: SortField, d: Direction, s: seq<CategoryRow>, page: nat, perPage: nat)
    requires Sorted(f, d, s)
    ensures Sorted(f, d, Window(s, page, perPage))
  {
    var w := Window(s, page, perPage);
    forall i, j | 0 <= i < j < |w|
      ensures RowLe(f, d, w[i], w[j])
    {
      assert w[i] == s[page * perPage + i] && w[j] == s[page * perPage + j];
    }
  }

  const InvalidPageMessage: string := "Page index must not be less than zero"
  const InvalidSizeMessage: string := "Page size must not be less than one"

  function InvalidDirectionMessage(direction: string): string {
    "Invalid value '" + direction + "' for orders given; Has to be either 'desc' or 'asc' (case insensitive)"
  }

  function UnknownPropertyMessage(sort: string): string {
    "No property '" + sort + "' found for type 'CategoryJpaEntity'"
  }

  /** A query the store accepts: a known direction, a page from zero, a page size of
      at least one, and a known sort property. */
  predicate WellFormed(q: SearchQuery) {
    ParseDirection(q.direction).Some? && q.page >= 0 && q.perPage >= 1 && ParseSortField(q.sort).Some?
  }

  /** The page a query selects from the stored rows: the matches, sorted, cut to the
      requested page, with the number of all matches as the total. A malformed
      direction, page, page size or sort property raises instead. */
  function SearchRows(rows: seq<CategoryRow>, q: SearchQuery): (r: Raises<Pagination<CategoryRow>>)
    ensures r.Normal? <==> WellFormed(q)
    ensures r.Normal? ==> r.value.currentPage == q.page && r.value.perPage == q.perPage
    ensures r.Normal? ==> r.value.total == |Filter(rows, q.terms)|
    ensures r.Normal? ==> forall x :: x in r.value.items ==> x in rows && Matches(x, q.terms)
    ensures r.Normal? ==> Sorted(ParseSortField(q.sort).value, ParseDirection(q.direction).value, r.value.items)
    ensures r.Normal? ==> |r.value.items| == if q.page * q.perPage >= r.value.total then 0
                                             else if r.value.total - q.page * q.perPage < q.perPage
                                             then r.value.total - q.page * q.perPage
                                             else q.perPage
  {
    var direction := ParseDirection(q.direction);
    if direction.None? then
      Raised(Unexpected(InvalidDirectionMessage(q.direction)))
    else if q.page < 0 then
      Raised(Unexpected(InvalidPageMessage))
    else if q.perPage < 1 then
      Raised(Unexpected(InvalidSizeMessage))
    else
      var field := ParseSortField(q.sort);
      if field.None? then
        Raised(Unexpected(UnknownPropertyMessage(q.sort)))
      else
        var matches := Filter(rows, q.terms);
        var sorted := SortRows(field.value, direction.value, matches);
        SortRowsSorted(field.value, direction.value, matches);
        WindowSorted(field.value, direction.value, sorted, q.page, q.perPage);
        assert |sorted| == |matches| by {
          assert |multiset(sorted)| == |multiset(matches)|;
        }
        var items := Window(sorted, q.page, q.perPage);
        assert forall x :: x in items ==> x in sorted;
        assert forall x :: x in sorted ==> x in multiset(matches);
        Normal(Pagination(q.page, q.perPage, |matches|, items))
  }

  /** The total is the same on every page of one search. */
  lemma TotalIndependentOfPage(rows: seq<CategoryRow>, q: SearchQuery, page: int)
    requires WellFormed(q) && page >= 0
    ensures SearchRows(rows, q.(page := page)).Normal?
    ensures SearchRows(rows, q.(page := page)).value.total == SearchRows(rows, q).value.total
  {
  }

  /** With no term, or a blank one, every stored row is counted. */
  lemma NoTermsCountsEveryRow(rows: seq<CategoryRow>, q: SearchQuery)
    requires WellFormed(q) && !Filtering(q.terms)
    ensures SearchRows(rows, q).value.total == |rows|
  {
  }

  /** The first item of page 0 may come before every matching row: sorting on name
      ascending puts "Amazon" first, on createdAt descending the newest row. */
  lemma {:induction false} FirstPageStartsWithLeast(rows: seq<CategoryRow>, q: SearchQuery, x: CategoryRow)
    requires WellFormed(q) && q.page == 0
    requires x in rows && Matches(x, q.terms)
    ensures SearchRows(rows, q).value.items != []
    ensures RowLe(ParseSortField(q.sort).value, ParseDirection(q.direction).value,
                  SearchRows(rows, q).value.items[0], x)
  {
    var f, d := ParseSortField(q.sort).value, ParseDirection(q.direction).value;
    var matches := Filter(rows, q.terms);
    var sorted := SortRows(f, d, matches);
    assert x in multiset(sorted);
    var k :| 0 <= k < |sorted| && sorted[k] == x;
    SortRowsSorted(f, d, matches);
    assert |sorted| == |matches| by {
      assert |multiset(sorted)| == |multiset(matches)|;
    }
    assert SearchRows(rows, q).value.items == Window(sorted, 0, q.perPage);
    if k == 0 {
      RowLeTotal(f, d, x, x);
    }
  }

  /** Reading pages 0 to n - 1 of one search, in turn, lists the matches in sorted
      order; once n pages reach the total, every match appears exactly once. */
  lemma {:induction false} PagesListEveryMatch(rows: seq<CategoryRow>, q: SearchQuery, n: nat)
    requires WellFormed(q)
    requires |Filter(rows, q.terms)| <= n * q.perPage
    ensures var sorted := SortRows(ParseSortField(q.sort).value, ParseDirection(q.direction).value,
                                   Filter(rows, q.terms));
            Pages(sorted, q.perPage, n) == sorted
            && multiset(sorted) == multiset(Filter(rows, q.terms))
            && (forall k :: 0 <= k < n ==> SearchRows(rows, q.(page := k)).value.items == Window(sorted, k, q.perPage))
  {
    var sorted := SortRows(ParseSortField(q.sort).value, ParseDirection(q.direction).value,
                           Filter(rows, q.terms));
    assert |sorted| == |Filter(rows, q.terms)| by {
      assert |multiset(sorted)| == |multiset(Filter(rows, q.terms))|;
    }
    PagesCoverAll(sorted, q.perPage, n);
  }
}
