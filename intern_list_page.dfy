/** src/pages/InternListPage.tsx: the public directory. Its derived views (option
    lists, filter, page, rows) are functions of the component state; the state
    itself is the class `ListPage`, whose methods are the change handlers and the
    effect that clamps the current page. */
module InternListPage {
  import opened Strings
  import opened Types
  import opened Lists
  import opened Paging
  import InternImages
  import opened Http

  /** The select value meaning "no constraint". */
  const All := "all"

  function RolesOf(interns: seq<Intern>): seq<string> {
    seq(|interns|, i requires 0 <= i < |interns| => interns[i].role)
  }

  function DepartmentsOf(interns: seq<Intern>): seq<string> {
    seq(|interns|, i requires 0 <= i < |interns| => interns[i].department)
  }

  /** `Array.from(new Set(roles)).sort()`: every role once, in order. */
  function RoleOptions(interns: seq<Intern>): (r: seq<string>)
    ensures StrictlySorted(r)
    ensures forall z :: z in r <==> exists i :: 0 <= i < |interns| && interns[i].role == z
  {
    var roles := RolesOf(interns);
    assert forall i :: 0 <= i < |interns| ==> roles[i] == interns[i].role;
    Options(roles)
  }

  /** The same for departments, after `filter(Boolean)` drops the empty ones. */
  function DepartmentOptions(interns: seq<Intern>): (r: seq<string>)
    ensures StrictlySorted(r)
    ensures "" !in r
    ensures forall z :: z in r <==> z != "" && exists i :: 0 <= i < |interns| && interns[i].department == z
  {
    var depts := DepartmentsOf(interns);
    assert forall i :: 0 <= i < |interns| ==> depts[i] == interns[i].department;
    Options(Filter(depts, d => d != ""))
  }

  /** `[name, email, role, id, department].filter(Boolean)`. */
  function SearchFields(x: Intern): seq<string> {
    Filter([x.name, x.email, x.role, x.id, x.department], f => f != "")
  }

  /** The predicate of `interns.filter(...)`: role, then department, then the
      trimmed, lower-cased query. */
  predicate Keeps(x: Intern, query: string, roleFilter: string, departmentFilter: string) {
    var q := Lower(Trim(query));
    if roleFilter != All && x.role != roleFilter then false
    else if departmentFilter != All && x.department != departmentFilter then false
    else if q == "" then true
    else SomeContains(SearchFields(x), q)
  }

  function Filtered(interns: seq<Intern>, query: string, roleFilter: string, departmentFilter: string): seq<Intern> {
    Filter(interns, x => Keeps(x, query, roleFilter, departmentFilter))
  }

  /** Dropping empty fields cannot change whether a non-empty query matches. */
  lemma NonEmptyFieldsSuffice(all: seq<string>, q: string)
    requires q != ""
    ensures SomeContains(Filter(all, f => f != ""), q) <==> SomeContains(all, q)
  {
    var fs := Filter(all, f => f != "");
    if SomeContains(all, q) {
      var i :| 0 <= i < |all| && Contains(Lower(all[i]), q);
      if all[i] == "" {
        assert Lower(all[i]) == "";
        ContainsInEmpty(q);
      }
      assert all[i] in fs;
      var j :| 0 <= j < |fs| && fs[j] == all[i];
      assert Contains(Lower(fs[j]), q);
    }
    if SomeContains(fs, q) {
      var j :| 0 <= j < |fs| && Contains(Lower(fs[j]), q);
      assert fs[j] in all;
      var i :| 0 <= i < |all| && all[i] == fs[j];
      assert Contains(Lower(all[i]), q);
    }
  }

  /** What survives the filter: exact role and department (or `'all'`), and a
      query that is blank after trimming or occurs, ignoring ASCII case, in the
      name, email, role, id or department. Dropping empty fields first changes nothing. */
  lemma FilteredMeaning(interns: seq<Intern>, query: string, roleFilter: string, departmentFilter: string, x: Intern)
    ensures var q := Lower(Trim(query));
      x in Filtered(interns, query, roleFilter, departmentFilter)
      <==> (x in interns
        && (roleFilter == All || x.role == roleFilter)
        && (departmentFilter == All || x.department == departmentFilter)
        && (q == "" || SomeContains([x.name, x.email, x.role, x.id, x.department], q)))
  {
    var q := Lower(Trim(query));
    if q != "" {
      NonEmptyFieldsSuffice([x.name, x.email, x.role, x.id, x.department], q);
    }
  }

  /** The filter keeps order and never sorts. */
  lemma FilteredInOrder(interns: seq<Intern>, query: string, roleFilter: string, departmentFilter: string)
    ensures IsSubseq(Filtered(interns, query, roleFilter, departmentFilter), interns)
  {
    FilterSubseq(interns, x => Keeps(x, query, roleFilter, departmentFilter));
  }

  /** A query of only white space is no constraint: the list is the role and
      department filter alone. */
  lemma BlankQueryKeepsAll(interns: seq<Intern>, query: string, roleFilter: string, departmentFilter: string)
    requires AllSpace(query)
    ensures Filtered(interns, query, roleFilter, departmentFilter) == Filtered(interns, "", roleFilter, departmentFilter)
  {
    assert Trim(query) == "";
    assert Trim("") == "";
    FilterSame(interns, x => Keeps(x, query, roleFilter, departmentFilter), x => Keeps(x, "", roleFilter, departmentFilter));
  }

  /** With every constraint cleared the directory shows everyone, in order. */
  lemma ClearedShowsAll(interns: seq<Intern>)
    ensures Filtered(interns, "", All, All) == interns
  {
    assert Trim("") == "";
    FilterAll(interns, x => Keeps(x, "", All, All));
  }

  /** One table row: `intern.imageUrl || getInternImageUrl(intern.id)`. */
  datatype Row = Row(id: string, name: string, email: string, role: string, imageUrl: string, intern: Intern)

  function RowImage(x: Intern): (r: string)
    ensures x.imageUrl != "" ==> r == x.imageUrl
    ensures x.imageUrl == "" ==> r == InternImages.ImageUrl(x.id)
    ensures r == "" <==> x.imageUrl == "" && x.id == ""
  {
    if x.imageUrl != "" then x.imageUrl else InternImages.ImageUrl(x.id)
  }

  function Rows(paged: seq<Intern>): (r: seq<Row>)
    ensures |r| == |paged|
    ensures forall i :: 0 <= i < |r| ==>
      r[i].intern == paged[i] && r[i].id == paged[i].id && r[i].imageUrl == RowImage(paged[i])
  {
    seq(|paged|, i requires 0 <= i < |paged| =>
      var x := paged[i];
      Row(x.id, x.name, x.email, x.role, RowImage(x), x))
  }

  /** The component state the handlers change. */
  class ListPage {
    var interns: seq<Intern>
    var currentPage: int
    var pageSize: int
    var query: string
    var roleFilter: string
    var departmentFilter: string

    predicate Valid()
      reads this
    {
      pageSize >= 1
    }

    /** The initial state: nothing loaded, page 1 of 20, no filters. */
    constructor()
      ensures Valid()
      ensures interns == [] && currentPage == 1 && pageSize == 20
      ensures query == "" && roleFilter == All && departmentFilter == All
    {
      interns := [];
      currentPage := 1;
      pageSize := 20;
      query := "";
      roleFilter := All;
      departmentFilter := All;
    }

    function View(): seq<Intern>
      reads this
    {
      Filtered(interns, query, roleFilter, departmentFilter)
    }

    function Pages(): int
      reads this
      requires Valid()
    {
      PageCount(|View()|, pageSize)
    }

    /** The rows on screen for the current state. */
    function Shown(): seq<Row>
      reads this
      requires Valid()
    {
      Rows(Paged(View(), currentPage, pageSize))
    }

    /** The load reply: on an ok response `data?.interns || []`; a failed one only
        sets the error message, which is not modelled. */
    method Load(reply: Reply<Option<seq<Intern>>>)
      modifies this
      ensures reply.Ok? ==> interns == OrElse(reply.value, [])
      ensures reply.Failed? ==> interns == old(interns)
      ensures currentPage == old(currentPage) && pageSize == old(pageSize) && query == old(query)
      ensures roleFilter == old(roleFilter) && departmentFilter == old(departmentFilter)
      ensures Valid() == old(Valid())
    {
      if reply.Ok? {
        interns := OrElse(reply.value, []);
      }
    }

    method HandleQueryChange(value: string)
      modifies this
      ensures query == value && currentPage == 1
      ensures interns == old(interns) && pageSize == old(pageSize)
      ensures roleFilter == old(roleFilter) && departmentFilter == old(departmentFilter)
      ensures Valid() == old(Valid())
    {
      query := value;
      currentPage := 1;
    }

    method HandleRoleFilterChange(value: string)
      modifies this
      ensures roleFilter == value && currentPage == 1
      ensures interns == old(interns) && pageSize == old(pageSize)
      ensures query == old(query) && departmentFilter == old(departmentFilter)
      ensures Valid() == old(Valid())
    {
      roleFilter := value;
      currentPage := 1;
    }

    method HandleDepartmentFilterChange(value: string)
      modifies this
      ensures departmentFilter == value && currentPage == 1
      ensures interns == old(interns) && pageSize == old(pageSize)
      ensures query == old(query) && roleFilter == old(roleFilter)
      ensures Valid() == old(Valid())
    {
      departmentFilter := value;
      currentPage := 1;
    }

    method HandlePageSizeChange(value: int)
      requires value >= 1
      modifies this
      ensures Valid()
      ensures pageSize == value && currentPage == 1
      ensures interns == old(interns) && query == old(query)
      ensures roleFilter == old(roleFilter) && departmentFilter == old(departmentFilter)
    {
      pageSize := value;
      currentPage := 1;
    }

    /** Back to no constraints on page 1: the whole list, in order. */
    method ClearFilters()
      modifies this
      ensures query == "" && roleFilter == All && departmentFilter == All && currentPage == 1
      ensures interns == old(interns) && pageSize == old(pageSize)
      ensures Valid() == old(Valid())
      ensures View() == interns
    {
      query := "";
      roleFilter := All;
      departmentFilter := All;
      currentPage := 1;
      ClearedShowsAll(interns);
      assert View() == Filtered(interns, "", All, All);
    }

    /** The effect: a current page past the last page becomes the last page;
        any other page stays. */
    method ClampPage()
      requires Valid()
      modifies this
      ensures Valid()
      ensures currentPage == (if old(currentPage) > Pages() then Pages() else old(currentPage))
      ensures currentPage <= Pages()
      ensures PageSafe(currentPage, Pages()) == currentPage
      ensures interns == old(interns) && pageSize == old(pageSize) && query == old(query)
      ensures roleFilter == old(roleFilter) && departmentFilter == old(departmentFilter)
    {
      var count := Pages();
      if currentPage > count {
        currentPage := count;
      }
    }
  }
}
