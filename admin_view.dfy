/** The derived views and pure record updates of src/pages/AdminPage.tsx: option
    lists, the filter-then-sort pipeline with its comparator, form validation, the
    by-id merges, tag edits and the CSV import row mapping. The component state
    that uses them is `AdminPage.Admin`. */
module AdminView {
  import opened Strings
  import opened Types
  import opened Lists
  import opened InternUtils
  import opened InternCsv
  import InternListPage

  const All := "all"

  // ------------------------------------------------------------------ options

  /** `interns.flatMap(i => i.projects)`. */
  function AllProjects(interns: seq<Intern>): seq<string>
    decreases |interns|
  {
    if interns == [] then [] else interns[0].projects + AllProjects(interns[1..])
  }

  lemma {:induction false} AllProjectsHas(interns: seq<Intern>, z: string)
    ensures z in AllProjects(interns) <==> exists i :: 0 <= i < |interns| && z in interns[i].projects
    decreases |interns|
  {
    if interns != [] {
      AllProjectsHas(interns[1..], z);
      if exists i :: 1 <= i < |interns| && z in interns[i].projects {
        var i :| 1 <= i < |interns| && z in interns[i].projects;
        assert interns[1..][i - 1] == interns[i];
      }
    }
  }

  /** `Array.from(new Set(interns.flatMap(i => i.projects))).sort()`: every project
      of every intern once, in order. The role list is the one the public page
      builds (`InternListPage.RoleOptions`). */
  function ProjectOptions(interns: seq<Intern>): (r: seq<string>)
    ensures StrictlySorted(r)
    ensures forall z :: z in r <==> exists i :: 0 <= i < |interns| && z in interns[i].projects
  {
    forall z ensures z in AllProjects(interns) <==> exists i :: 0 <= i < |interns| && z in interns[i].projects {
      AllProjectsHas(interns, z);
    }
    Options(AllProjects(interns))
  }

  // ------------------------------------------------------------------- filter

  /** The predicate of `interns.filter(...)`: role, project membership, then the
      lower-cased (untrimmed) query against name, role, id, email, department. */
  predicate Keeps(x: Intern, query: string, roleFilter: string, projectFilter: string) {
    if roleFilter != All && x.role != roleFilter then false
    else if projectFilter != All && projectFilter !in x.projects then false
    else SomeContains([x.name, x.role, x.id, x.email, x.department], Lower(query))
  }

  /** An empty query matches every record: every string includes `""`. */
  lemma EmptyQueryMatches(x: Intern)
    ensures Keeps(x, "", All, All)
  {
    ContainsEmpty(Lower(x.name));
    assert Contains(Lower([x.name, x.role, x.id, x.email, x.department][0]), Lower(""));
  }

  /** Unlike the public page the query is not trimmed: a lone space matches only
      records with a space in one of the searched fields. */
  lemma UntrimmedQuery(x: Intern)
    requires x == Intern("ID01", "Ann", "Dev", "a@b.c", "", "", [], "", "", "", [], "")
    ensures !Keeps(x, " ", All, All)
    ensures InternListPage.Keeps(x, " ", All, All)
  {
    assert Lower(" ") == " ";
    var fs := [x.name, x.role, x.id, x.email, x.department];
    forall i | 0 <= i < |fs| ensures !Contains(Lower(fs[i]), " ") {
      NoSpaceNoContains(Lower(fs[i]));
    }
    assert Trim(" ") == "" by { assert AllSpace(" "); }
  }

  lemma {:induction false} NoSpaceNoContains(s: string)
    requires ' ' !in s
    ensures !Contains(s, " ")
    decreases |s|
  {
    if s != [] {
      assert s[0] in s;
      assert s[..1] != " ";
      NoSpaceNoContains(s[1..]);
    }
  }

  // --------------------------------------------------------------- comparator

  /** `compare(key)`: `localeCompare` on name or role, the difference of project counts. */
  function KeyCompare(a: Intern, b: Intern, key: SortKey): int {
    match key
    case ByName => LexCompare(a.name, b.name)
    case ByRole => LexCompare(a.role, b.role)
    case ByProjects => |a.projects| - |b.projects|
  }

  /** The primary key, negated for a descending sort only when non-zero; on a tie
      the secondary key, always ascending. */
  function Compare(a: Intern, b: Intern, key: SortKey, dir: SortDir, key2: SortKey): int {
    var primary := KeyCompare(a, b, key);
    if primary != 0 then (if dir == Asc then primary else -primary)
    else KeyCompare(a, b, key2)
  }

  function Comparator(key: SortKey, dir: SortDir, key2: SortKey): (Intern, Intern) -> int {
    (a, b) => Compare(a, b, key, dir, key2)
  }

  /** Each key orders records consistently: swapping the arguments flips the sign,
      and the order is transitive in its strict and non-strict forms. */
  lemma KeyOrder(a: Intern, b: Intern, c: Intern, key: SortKey)
    ensures Sign(KeyCompare(a, b, key)) == -Sign(KeyCompare(b, a, key))
    ensures KeyCompare(a, b, key) <= 0 && KeyCompare(b, c, key) <= 0 ==> KeyCompare(a, c, key) <= 0
    ensures KeyCompare(a, b, key) < 0 && KeyCompare(b, c, key) <= 0 ==> KeyCompare(a, c, key) < 0
    ensures KeyCompare(a, b, key) <= 0 && KeyCompare(b, c, key) < 0 ==> KeyCompare(a, c, key) < 0
  {
    match key
    case ByProjects =>
    case ByName =>
      LexOrder(a.name, b.name, c.name);
    case ByRole =>
      LexOrder(a.role, b.role, c.role);
  }

  lemma LexOrder(x: string, y: string, z: string)
    ensures Sign(LexCompare(x, y)) == -Sign(LexCompare(y, x))
    ensures LexCompare(x, y) <= 0 && LexCompare(y, z) <= 0 ==> LexCompare(x, z) <= 0
    ensures LexCompare(x, y) < 0 && LexCompare(y, z) <= 0 ==> LexCompare(x, z) < 0
    ensures LexCompare(x, y) <= 0 && LexCompare(y, z) < 0 ==> LexCompare(x, z) < 0
  {
    if LexLess(x, y) && LexLess(y, z) { LexTransitive(x, y, z); }
  }

  /** The two-level comparator is one `Array.prototype.sort` can use. */
  lemma ComparatorConsistent(key: SortKey, dir: SortDir, key2: SortKey)
    ensures Consistent(Comparator(key, dir, key2))
  {
    var cmp := Comparator(key, dir, key2);
    forall a, b ensures Sign(cmp(a, b)) == -Sign(cmp(b, a)) {
      KeyOrder(a, b, a, key);
      KeyOrder(a, b, a, key2);
    }
    forall a, b, c | cmp(a, b) <= 0 && cmp(b, c) <= 0 ensures cmp(a, c) <= 0 {
      CompareTransitive(a, b, c, key, dir, key2);
    }
  }

  lemma CompareTransitive(a: Intern, b: Intern, c: Intern, key: SortKey, dir: SortDir, key2: SortKey)
    requires Compare(a, b, key, dir, key2) <= 0 && Compare(b, c, key, dir, key2) <= 0
    ensures Compare(a, c, key, dir, key2) <= 0
  {
    KeyOrder(a, b, c, key);
    KeyOrder(c, b, a, key);
    KeyOrder(a, b, c, key2);
    KeyOrder(b, a, c, key);
    KeyOrder(a, c, b, key);
  }

  /** `interns.filter(...).sort(...)`. */
  function Filtered(interns: seq<Intern>, query: string, roleFilter: string, projectFilter: string,
                    key: SortKey, dir: SortDir, key2: SortKey): seq<Intern>
  {
    Sort(Filter(interns, x => Keeps(x, query, roleFilter, projectFilter)), Comparator(key, dir, key2))
  }

  /** The table holds exactly the surviving records (as a multiset), ordered by the
      two-level comparator. */
  lemma FilteredSpec(interns: seq<Intern>, query: string, roleFilter: string, projectFilter: string,
                     key: SortKey, dir: SortDir, key2: SortKey)
    ensures var r := Filtered(interns, query, roleFilter, projectFilter, key, dir, key2);
      multiset(r) == multiset(Filter(interns, x => Keeps(x, query, roleFilter, projectFilter)))
      && SortedBy(r, Comparator(key, dir, key2))
      && forall x :: x in r <==> x in interns && Keeps(x, query, roleFilter, projectFilter)
  {
    var kept := Filter(interns, x => Keeps(x, query, roleFilter, projectFilter));
    var cmp := Comparator(key, dir, key2);
    SortPerm(kept, cmp);
    ComparatorConsistent(key, dir, key2);
    SortSorted(kept, cmp);
    var r := Sort(kept, cmp);
    forall x ensures x in r <==> x in kept {
      assert x in r <==> x in multiset(r);
      assert x in kept <==> x in multiset(kept);
    }
  }

  // --------------------------------------------------------------- validation

  const NameRequired := "Name is required."
  const RoleRequired := "Role is required."
  const EmailRequired := "Email is required."
  const EmailInvalid := "Please enter a valid email."

  predicate NoSpace(s: string) {
    forall i :: 0 <= i < |s| ==> !IsSpace(s[i])
  }

  /** `/^\S+@\S+\.\S+$/.test(e)`: no white space anywhere, and some `@` and a later
      `.` cut the text into three non-empty parts. */
  predicate EmailShape(e: string) {
    NoSpace(e)
    && exists i, j :: 1 <= i < |e| && i + 2 <= j < |e| - 1 && e[i] == '@' && e[j] == '.'
  }

  /** Every check of the form passes. */
  predicate FormComplete(form: FormState) {
    Trim(form.name) != "" && Trim(form.role) != "" && Trim(form.email) != ""
    && EmailShape(Trim(form.email))
  }

  /** `validateForm()`: the message of the first failing check, or `''`. */
  function ValidateForm(form: FormState): (r: string)
    ensures r == "" <==> FormComplete(form)
    ensures r in {"", NameRequired, RoleRequired, EmailRequired, EmailInvalid}
    ensures Trim(form.name) == "" ==> r == NameRequired
    ensures Trim(form.name) != "" && Trim(form.role) == "" ==> r == RoleRequired
    ensures Trim(form.name) != "" && Trim(form.role) != "" && Trim(form.email) == "" ==> r == EmailRequired
    ensures (Trim(form.name) != "" && Trim(form.role) != "" && Trim(form.email) != ""
             && !EmailShape(Trim(form.email))) ==> r == EmailInvalid
  {
    if Trim(form.name) == "" then NameRequired
    else if Trim(form.role) == "" then RoleRequired
    else if Trim(form.email) == "" then EmailRequired
    else if !EmailShape(Trim(form.email)) then EmailInvalid
    else ""
  }

  /** The pattern on a few addresses: it wants a character before the `@`, a
      character between `@` and `.`, one after the `.`, and no spaces. */
  lemma EmailExamples()
    ensures EmailShape("a@b.c")
    ensures EmailShape("a@b@c.d")
    ensures !EmailShape("a@b")
    ensures !EmailShape("@b.c")
    ensures !EmailShape("a@.c")
    ensures !EmailShape("a@b.")
    ensures !EmailShape("a b@c.d")
  {
    assert "a@b.c"[1] == '@' && "a@b.c"[3] == '.';
    assert "a@b@c.d"[1] == '@' && "a@b@c.d"[5] == '.';
    assert IsSpace("a b@c.d"[1]);
  }

  // ---------------------------------------------------------- record updates

  /** `prev.map(item => item.id === id ? y : item)` */
  function ReplaceById(xs: seq<Intern>, id: string, y: Intern): seq<Intern> {
    seq(|xs|, i requires 0 <= i < |xs| => if xs[i].id == id then y else xs[i])
  }

  /** Merging a server record: exactly the elements with its id become it, the
      length is kept and every other element is untouched. */
  lemma MergeSpec(xs: seq<Intern>, u: Intern)
    ensures var r := ReplaceById(xs, u.id, u);
      |r| == |xs|
      && (forall i :: 0 <= i < |xs| && xs[i].id == u.id ==> r[i] == u)
      && (forall i :: 0 <= i < |xs| && xs[i].id != u.id ==> r[i] == xs[i])
      && (forall i :: 0 <= i < |xs| ==> r[i].id == xs[i].id)
  {
  }

  /** Merging the same record twice is merging it once. */
  lemma MergeIdempotent(xs: seq<Intern>, u: Intern)
    ensures ReplaceById(ReplaceById(xs, u.id, u), u.id, u) == ReplaceById(xs, u.id, u)
  {
  }

  /** A record whose id is not listed changes nothing. */
  lemma MergeAbsent(xs: seq<Intern>, u: Intern)
    requires forall i :: 0 <= i < |xs| ==> xs[i].id != u.id
    ensures ReplaceById(xs, u.id, u) == xs
  {
  }

  /** `prev.filter(item => item.id !== id)` */
  function RemoveById(xs: seq<Intern>, id: string): seq<Intern> {
    Filter(xs, (x: Intern) => x.id != id)
  }

  /** Deleting drops every element with the id, keeps every other one in order,
      and changes nothing when the id is not listed. */
  lemma RemoveByIdSpec(xs: seq<Intern>, id: string)
    ensures var r := RemoveById(xs, id);
      (forall x :: x in r ==> x.id != id)
      && (forall x :: x in xs && x.id != id ==> x in r)
      && IsSubseq(r, xs)
      && ((forall i :: 0 <= i < |xs| ==> xs[i].id != id) ==> r == xs)
  {
    FilterSubseq(xs, (x: Intern) => x.id != id);
    if forall i :: 0 <= i < |xs| ==> xs[i].id != id {
      FilterAll(xs, (x: Intern) => x.id != id);
    }
  }

  /** `tags.includes(t) ? tags : [...tags, t]` */
  function AddTag(tags: seq<string>, t: string): seq<string> {
    if t in tags then tags else tags + [t]
  }

  /** `tags.filter(p => p !== t)` */
  function RemoveTag(tags: seq<string>, t: string): seq<string> {
    Filter(tags, p => p != t)
  }

  /** Adding a tag: it is then present, it is appended at the end when new, and
      adding it again changes nothing. */
  lemma AddTagSpec(tags: seq<string>, t: string)
    ensures t in AddTag(tags, t)
    ensures t !in tags ==> AddTag(tags, t) == tags + [t]
    ensures AddTag(AddTag(tags, t), t) == AddTag(tags, t)
  {
  }

  /** Removing a tag drops every equal occurrence and keeps the others in order;
      it undoes adding a new tag. */
  lemma RemoveTagSpec(tags: seq<string>, t: string)
    ensures t !in RemoveTag(tags, t)
    ensures forall p :: p in tags && p != t ==> p in RemoveTag(tags, t)
    ensures IsSubseq(RemoveTag(tags, t), tags)
    ensures t !in tags ==> RemoveTag(AddTag(tags, t), t) == tags
  {
    FilterSubseq(tags, p => p != t);
    if t !in tags {
      FilterDropLast(tags, t, p => p != t);
      FilterAll(tags, p => p != t);
    }
  }

  /** `drafts[id]?.trim()`, when it is non-empty. */
  function Draft(drafts: map<string, string>, id: string): Option<string> {
    if id in drafts && Trim(drafts[id]) != "" then Some(Trim(drafts[id])) else None
  }

  // ------------------------------------------------------------------ import

  /** `rows[0].map(cell => cell.trim().toLowerCase())` */
  function HeaderKeys(cells: seq<string>): (r: seq<string>)
    ensures |r| == |cells|
  {
    seq(|cells|, i requires 0 <= i < |cells| => Lower(Trim(cells[i])))
  }

  /** `xs.indexOf(key)`: the first position of `key`, or -1. */
  function IndexOf(xs: seq<string>, key: string): (r: int)
    ensures -1 <= r < |xs|
    ensures r == -1 <==> key !in xs
    ensures r >= 0 ==> xs[r] == key && key !in xs[..r]
    decreases |xs|
  {
    if xs == [] then -1
    else if xs[0] == key then 0
    else
      var k := IndexOf(xs[1..], key);
      assert k >= 0 ==> xs[..k + 1] == [xs[0]] + xs[1..][..k];
      if k == -1 then -1 else k + 1
  }

  /** `getCell(row, key)`: the cell under the first column named `key`; `''` when
      there is no such column or the row is too short. */
  function GetCell(header: seq<string>, row: seq<string>, key: string): (r: string)
    ensures key !in header ==> r == ""
    ensures key in header && IndexOf(header, key) < |row| ==> r == row[IndexOf(header, key)]
    ensures IndexOf(header, key) >= |row| ==> r == ""
  {
    var idx := IndexOf(header, key);
    if idx >= 0 then (if idx < |row| then row[idx] else "") else ""
  }

  /** One data row as the import sends it: every cell trimmed, list cells through
      `parseListCell`, and a blank id left out. */
  function ImportRecord(header: seq<string>, row: seq<string>): (r: Incoming)
    ensures r.id.Some? <==> Trim(GetCell(header, row, "id")) != ""
    ensures r.id.Some? ==> r.id.value == Trim(GetCell(header, row, "id"))
    ensures r.name == Some(Trim(GetCell(header, row, "name")))
    ensures r.role == Some(Trim(GetCell(header, row, "role")))
    ensures r.email == Some(Trim(GetCell(header, row, "email")))
    ensures r.phone == Some(Trim(GetCell(header, row, "phone")))
    ensures r.imageUrl == Some(Trim(GetCell(header, row, "imageurl")))
    ensures r.projects == Some(ParseListCell(GetCell(header, row, "projects")))
    ensures r.manager == Some(Trim(GetCell(header, row, "manager")))
    ensures r.startDate == Some(Trim(GetCell(header, row, "startdate")))
    ensures r.performance == Some(Trim(GetCell(header, row, "performance")))
    ensures r.skills == Some(ParseListCell(GetCell(header, row, "skills")))
    ensures r.department == Some(Trim(GetCell(header, row, "department")))
  {
    var id := Trim(GetCell(header, row, "id"));
    Incoming(
      if id == "" then None else Some(id),
      Some(Trim(GetCell(header, row, "name"))),
      Some(Trim(GetCell(header, row, "role"))),
      Some(Trim(GetCell(header, row, "email"))),
      Some(Trim(GetCell(header, row, "phone"))),
      Some(Trim(GetCell(header, row, "imageurl"))),
      Some(ParseListCell(GetCell(header, row, "projects"))),
      Some(Trim(GetCell(header, row, "manager"))),
      Some(Trim(GetCell(header, row, "startdate"))),
      Some(Trim(GetCell(header, row, "performance"))),
      Some(ParseListCell(GetCell(header, row, "skills"))),
      Some(Trim(GetCell(header, row, "department"))))
  }

  /** The parser never yields an empty row, so the import's empty-row filter keeps every row. */
  lemma RowsNonEmpty(text: string)
    ensures Filter(CsvRows(text), r => |r| > 0) == CsvRows(text)
  {
    FilterAll(CsvRows(text), r => |r| > 0);
  }

  /** What reading a CSV file leads to: an error, or the bulk request's records. */
  datatype ImportPlan = NoDataRows | Send(records: seq<Incoming>)

  /** `rows.slice(1).map(row => ...)` */
  function DataRecords(header: seq<string>, data: seq<seq<string>>): (r: seq<Incoming>)
    ensures |r| == |data|
  {
    seq(|data|, i requires 0 <= i < |data| => ImportRecord(header, data[i]))
  }

  /** `parseCSV(text).filter(r => r.length > 0)`, then the header and data rows. */
  function PlanImport(text: string): (p: ImportPlan)
    ensures var rows := CsvRows(text);
      (p.NoDataRows? <==> |rows| < 2)
      && (p.Send? ==> |p.records| == |rows| - 1)
  {
    var rows := Filter(CsvRows(text), r => |r| > 0);
    RowsNonEmpty(text);
    if |rows| < 2 then NoDataRows
    else Send(DataRecords(HeaderKeys(rows[0]), rows[1..]))
  }

  // ------------------------------------------------------ export, then import

  /** A record that survives export and re-import: its cells need no CSV
      quoting trouble, its text fields are already trimmed, its id is set, and its
      lists read back from their ` | ` cells. */
  predicate Portable(x: Intern) {
    CsvSafeIntern(x) && x.id != ""
    && Trimmed(x.id) && Trimmed(x.name) && Trimmed(x.role) && Trimmed(x.email) && Trimmed(x.phone)
    && Trimmed(x.manager) && Trimmed(x.startDate) && Trimmed(x.performance) && Trimmed(x.department)
    && CellSafeList(x.projects) && CellSafeList(x.skills)
  }

  /** The record the import sends for an exported intern: all fields, with the
      image URL empty because the export has no image column. */
  function AsImported(x: Intern): Incoming {
    Incoming(Some(x.id), Some(x.name), Some(x.role), Some(x.email), Some(x.phone), Some(""),
             Some(x.projects), Some(x.manager), Some(x.startDate), Some(x.performance),
             Some(x.skills), Some(x.department))
  }

  /** `key` is what the import makes of the header cell `cell`. */
  predicate LowerOf(cell: string, key: string) {
    |cell| == |key| && Trimmed(cell) && forall k :: 0 <= k < |cell| ==> LowerChar(cell[k]) == key[k]
  }

  /** The export's header cells, as the import's lookup sees them. */
  predicate CellLayout(c: seq<string>) {
    |c| == 11 && LowerOf(c[0], "id") && LowerOf(c[1], "name") && LowerOf(c[2], "role")
    && LowerOf(c[3], "email") && LowerOf(c[4], "phone") && LowerOf(c[5], "projects")
    && LowerOf(c[6], "manager") && LowerOf(c[7], "startdate") && LowerOf(c[8], "performance")
    && LowerOf(c[9], "skills") && LowerOf(c[10], "department")
  }

  /** The keys the import derives from an exported header. */
  predicate KeyLayout(h: seq<string>) {
    |h| == 11 && h[0] == "id" && h[1] == "name" && h[2] == "role" && h[3] == "email"
    && h[4] == "phone" && h[5] == "projects" && h[6] == "manager" && h[7] == "startdate"
    && h[8] == "performance" && h[9] == "skills" && h[10] == "department"
  }

  /** Where the import finds each column of an exported file. */
  predicate ExportLayout(h: seq<string>) {
    IndexOf(h, "id") == 0 && IndexOf(h, "name") == 1 && IndexOf(h, "role") == 2
    && IndexOf(h, "email") == 3 && IndexOf(h, "phone") == 4 && IndexOf(h, "projects") == 5
    && IndexOf(h, "manager") == 6 && IndexOf(h, "startdate") == 7 && IndexOf(h, "performance") == 8
    && IndexOf(h, "skills") == 9 && IndexOf(h, "department") == 10 && IndexOf(h, "imageurl") == -1
  }

  lemma HeaderCellsFirst()
    ensures LowerOf(HeaderCells[0], "id") && LowerOf(HeaderCells[1], "name")
    ensures LowerOf(HeaderCells[2], "role") && LowerOf(HeaderCells[3], "email")
  {
  }

  lemma HeaderCellsMiddle()
    ensures LowerOf(HeaderCells[4], "phone") && LowerOf(HeaderCells[5], "projects")
    ensures LowerOf(HeaderCells[6], "manager") && LowerOf(HeaderCells[7], "startdate")
  {
  }

  lemma HeaderCellsLast()
    ensures LowerOf(HeaderCells[8], "performance") && LowerOf(HeaderCells[9], "skills")
    ensures LowerOf(HeaderCells[10], "department")
  {
  }

  /** Lower-casing and trimming the header `toCSV` writes gives the lookup keys. */
  lemma HeaderCellsLayout()
    ensures CellLayout(HeaderCells)
  {
    HeaderCellsFirst();
    HeaderCellsMiddle();
    HeaderCellsLast();
  }

  lemma KeyAt(cells: seq<string>, i: int, key: string)
    requires 0 <= i < |cells| && LowerOf(cells[i], key)
    ensures HeaderKeys(cells)[i] == key
  {
    assert Trim(cells[i]) == cells[i];
  }

  lemma HeaderLayout(c: seq<string>)
    requires CellLayout(c)
    ensures KeyLayout(HeaderKeys(c))
  {
    KeyAt(c, 0, "id");
    KeyAt(c, 1, "name");
    KeyAt(c, 2, "role");
    KeyAt(c, 3, "email");
    KeyAt(c, 4, "phone");
    KeyAt(c, 5, "projects");
    KeyAt(c, 6, "manager");
    KeyAt(c, 7, "startdate");
    KeyAt(c, 8, "performance");
    KeyAt(c, 9, "skills");
    KeyAt(c, 10, "department");
  }

  /** The keys the import reads off the header `toCSV` writes. */
  lemma ExportHeaderKeys(c: seq<string>)
    requires c == HeaderCells
    ensures KeyLayout(HeaderKeys(c))
  {
    HeaderCellsLayout();
    HeaderLayout(c);
  }

  /** The first occurrence of a key not seen earlier is its own position. */
  lemma IndexOfFirst(xs: seq<string>, k: int)
    requires 0 <= k < |xs| && forall j :: 0 <= j < k ==> xs[j] != xs[k]
    ensures IndexOf(xs, xs[k]) == k
  {
  }

  lemma KeysFirst(h: seq<string>)
    requires KeyLayout(h)
    ensures IndexOf(h, "id") == 0 && IndexOf(h, "name") == 1
    ensures IndexOf(h, "role") == 2 && IndexOf(h, "email") == 3
  {
    IndexOfFirst(h, 0);
    IndexOfFirst(h, 1);
    IndexOfFirst(h, 2);
    IndexOfFirst(h, 3);
  }

  lemma KeysMiddle(h: seq<string>)
    requires KeyLayout(h)
    ensures IndexOf(h, "phone") == 4 && IndexOf(h, "projects") == 5
    ensures IndexOf(h, "manager") == 6 && IndexOf(h, "startdate") == 7
  {
    IndexOfFirst(h, 4);
    IndexOfFirst(h, 5);
    IndexOfFirst(h, 6);
    IndexOfFirst(h, 7);
  }

  lemma KeysLast(h: seq<string>)
    requires KeyLayout(h)
    ensures IndexOf(h, "performance") == 8 && IndexOf(h, "skills") == 9
    ensures IndexOf(h, "department") == 10 && IndexOf(h, "imageurl") == -1
  {
    IndexOfFirst(h, 8);
    IndexOfFirst(h, 9);
    IndexOfFirst(h, 10);
    assert forall j :: 0 <= j < |h| ==> h[j] != "imageurl";
  }

  /** Each key is found at the column the export wrote it in, and there is no image column. */
  lemma KeysLayout(h: seq<string>)
    requires KeyLayout(h)
    ensures ExportLayout(h)
  {
    KeysFirst(h);
    KeysMiddle(h);
    KeysLast(h);
  }

  /** Under the export's layout, each lookup returns its own column of the row. */
  lemma ExportCells(h: seq<string>, row: seq<string>)
    requires ExportLayout(h) && |row| == 11
    ensures GetCell(h, row, "id") == row[0] && GetCell(h, row, "name") == row[1]
    ensures GetCell(h, row, "role") == row[2] && GetCell(h, row, "email") == row[3]
    ensures GetCell(h, row, "phone") == row[4] && GetCell(h, row, "projects") == row[5]
    ensures GetCell(h, row, "manager") == row[6] && GetCell(h, row, "startdate") == row[7]
    ensures GetCell(h, row, "performance") == row[8] && GetCell(h, row, "skills") == row[9]
    ensures GetCell(h, row, "department") == row[10] && GetCell(h, row, "imageurl") == ""
  {
  }

  /** One exported row imports as the record it came from. */
  lemma ImportOfFields(h: seq<string>, x: Intern)
    requires ExportLayout(h) && Portable(x)
    ensures ImportRecord(h, Fields(x)) == AsImported(x)
  {
    ExportCells(h, Fields(x));
    ListCellRoundTrip(x.projects);
    ListCellRoundTrip(x.skills);
  }

  /** The data rows of an exported table, looked up under its keys, are the records exported. */
  lemma ImportRows(h: seq<string>, data: seq<seq<string>>, interns: seq<Intern>)
    requires KeyLayout(h) && |data| == |interns|
    requires forall i :: 0 <= i < |interns| ==> Portable(interns[i]) && data[i] == Fields(interns[i])
    ensures DataRecords(h, data) == seq(|interns|, i requires 0 <= i < |interns| => AsImported(interns[i]))
  {
    KeysLayout(h);
    forall i | 0 <= i < |interns| ensures DataRecords(h, data)[i] == AsImported(interns[i]) {
      ImportOfFields(h, interns[i]);
    }
  }

  /** Importing an export sends, row for row and in order, the records that were
      exported (image URLs aside), provided there is at least one. */
  lemma ExportThenImport(interns: seq<Intern>)
    requires |interns| >= 1
    requires forall i :: 0 <= i < |interns| ==> Portable(interns[i])
    ensures PlanImport(CsvText(interns)) == Send(seq(|interns|, i requires 0 <= i < |interns| => AsImported(interns[i])))
  {
    var tbl := Table(interns);
    CsvRoundTrip(interns);
    TableData(interns);
    PlanOfRows(CsvText(interns), tbl);
    ExportHeaderKeys(tbl[0]);
    ImportRows(HeaderKeys(tbl[0]), tbl[1..], interns);
  }

  /** A text whose rows are all non-empty and at least two is planned as its data rows. */
  lemma PlanOfRows(text: string, rows: seq<seq<string>>)
    requires CsvRows(text) == rows && |rows| >= 2
    ensures PlanImport(text) == Send(DataRecords(HeaderKeys(rows[0]), rows[1..]))
  {
    RowsNonEmpty(text);
  }

  /** The export's table: the header row, then each intern's cells. */
  lemma TableData(interns: seq<Intern>)
    ensures |Table(interns)| == |interns| + 1 && Table(interns)[0] == HeaderCells
    ensures forall i :: 0 <= i < |interns| ==> Table(interns)[1..][i] == Fields(interns[i])
  {
  }
}
