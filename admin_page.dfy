/** The admin directory page (src/pages/AdminPage.tsx) as a stateful object: its
    React state becomes the fields of `Admin`, each handler a method that updates
    them. Server replies, the file a user picks and the answer to `confirm` are
    parameters; each request a handler sends is returned so contracts can speak of it. */
module AdminPage {
  import opened Types
  import opened Strings
  import opened Lists
  import opened Paging
  import opened InternUtils
  import opened InternCsv
  import opened AdminView
  import opened Http
  import opened InternRoute

  // ------------------------------------------------------------ form records

  /** The form an edit opens with: every field copied, lists joined with `, `. */
  function FormOf(x: Intern): FormState {
    FormState(x.id, x.name, x.role, x.email, x.phone, x.imageUrl, Join(x.projects, ", "),
              x.manager, x.startDate, x.performance, Join(x.skills, ", "), x.department)
  }

  /** The record an edit saves: the id being edited, text fields trimmed, the list
      fields through `normalizeList`. */
  function FormRecord(id: string, f: FormState): Intern {
    Intern(id, Trim(f.name), Trim(f.role), Trim(f.email), Trim(f.phone), Trim(f.imageUrl),
           NormalizeList(f.projectsText), Trim(f.manager), Trim(f.startDate), Trim(f.performance),
           NormalizeList(f.skillsText), Trim(f.department))
  }

  /** The body a create sends: the same fields, without an id. */
  function CreateRecord(f: FormState): Incoming {
    Incoming(None, Some(Trim(f.name)), Some(Trim(f.role)), Some(Trim(f.email)), Some(Trim(f.phone)),
             Some(Trim(f.imageUrl)), Some(NormalizeList(f.projectsText)), Some(Trim(f.manager)),
             Some(Trim(f.startDate)), Some(Trim(f.performance)), Some(NormalizeList(f.skillsText)),
             Some(Trim(f.department)))
  }

  /** Lists that an edit form shows and reads back unchanged. */
  predicate FormList(items: seq<string>) {
    forall i :: 0 <= i < |items| ==> items[i] != "" && Trimmed(items[i]) && ',' !in items[i]
  }

  /** A record that opening and saving the edit form leaves as it was. */
  predicate Editable(x: Intern) {
    Trimmed(x.name) && Trimmed(x.role) && Trimmed(x.email) && Trimmed(x.phone) && Trimmed(x.imageUrl)
    && Trimmed(x.manager) && Trimmed(x.startDate) && Trimmed(x.performance) && Trimmed(x.department)
    && FormList(x.projects) && FormList(x.skills)
  }

  /** Every item after the first with the space that `, ` puts before it. */
  function Spaced(items: seq<string>): (r: seq<string>)
    ensures |r| == |items|
    ensures forall i :: 0 <= i < |items| ==> r[i] == " " + items[i]
  {
    seq(|items|, i requires 0 <= i < |items| => " " + items[i])
  }

  lemma {:induction false} JoinSpaced(items: seq<string>)
    requires items != []
    ensures Join(Spaced(items), ",") == " " + Join(items, ", ")
    decreases |items|
  {
    if |items| > 1 {
      JoinSpaced(items[1..]);
      assert Spaced(items) == [" " + items[0]] + Spaced(items[1..]);
      JoinCons(" " + items[0], Spaced(items[1..]), ",");
      JoinCons(items[0], items[1..], ", ");
      assert items == [items[0]] + items[1..];
    }
  }

  /** The items joined with `, ` are the pieces `split(',')` will find, joined with `,`. */
  lemma JoinedParts(items: seq<string>)
    requires items != []
    ensures Join(items, ", ") == Join([items[0]] + Spaced(items[1..]), ",")
  {
    if |items| > 1 {
      var rest := Join(items[1..], ", ");
      JoinSpaced(items[1..]);
      JoinCons(items[0], Spaced(items[1..]), ",");
      JoinCons(items[0], items[1..], ", ");
      assert items == [items[0]] + items[1..];
      Assoc(items[0] + ",", " ", rest);
      Assoc(items[0], ",", " ");
    } else {
      assert [items[0]] + Spaced(items[1..]) == [items[0]];
    }
  }

  /** The pieces are the items, the first bare and the rest after a space. */
  lemma PartAt(items: seq<string>, parts: seq<string>, i: int)
    requires items != [] && parts == [items[0]] + Spaced(items[1..]) && 0 <= i < |items|
    ensures |parts| == |items|
    ensures parts[i] == if i == 0 then items[0] else " " + items[i]
  {
    if i > 0 {
      assert parts[i] == Spaced(items[1..])[i - 1];
    }
  }

  /** Trimming each piece gives the items back, and no piece holds a comma. */
  lemma PartsTrim(items: seq<string>, parts: seq<string>)
    requires items != [] && FormList(items) && parts == [items[0]] + Spaced(items[1..])
    ensures |parts| == |items|
    ensures forall i :: 0 <= i < |parts| ==> ',' !in parts[i] && Trim(parts[i]) == items[i]
  {
    PartAt(items, parts, 0);
    forall i | 0 <= i < |parts| ensures ',' !in parts[i] && Trim(parts[i]) == items[i] {
      PartAt(items, parts, i);
      if i > 0 {
        SpacedTrim(items[i]);
      }
    }
  }

  lemma SpacedTrim(x: string)
    requires x != "" && Trimmed(x) && ',' !in x
    ensures ',' !in " " + x && Trim(" " + x) == x
  {
    TrimAround(" ", x, "");
    assert " " + x + "" == " " + x;
  }

  /** `normalizeList(items.join(', '))` gives the items back. */
  lemma NormalizeJoined(items: seq<string>)
    requires FormList(items)
    ensures NormalizeList(Join(items, ", ")) == items
  {
    if items == [] {
      assert AllSpace(Join(items, ", "));
    } else {
      var parts := [items[0]] + Spaced(items[1..]);
      JoinedParts(items);
      PartsTrim(items, parts);
      SplitJoin(parts, ',');
      TrimItemsExact(parts, items);
    }
  }

  /** Opening a record in the edit form and saving it untouched gives it back. */
  lemma EditRoundTrip(x: Intern)
    requires Editable(x)
    ensures FormRecord(x.id, FormOf(x)) == x
  {
    NormalizeJoined(x.projects);
    NormalizeJoined(x.skills);
  }

  // --------------------------------------------------------------- requests

  /** The save request `persistIntern` sends, as written: a POST to the record's path. */
  function PersistRequestAsWritten(payload: Intern): Request {
    Request(Post, InternPath(payload.id), InternBody(payload))
  }

  /** The single-intern route refuses that POST whatever the record: with a valid
      session and an id, the answer is 405, so no edit is ever saved. */
  lemma PersistAsWrittenRefused(payload: Intern, authed: bool, found: bool)
    requires payload.id != "" && authed
    ensures Status(PersistRequestAsWritten(payload), authed, found) == 405
  {
    RouteIdOfPath(payload.id);
  }

  /** The save request the route serves: a PUT to the record's path. */
  function PersistRequest(payload: Intern): Request {
    Request(Put, InternPath(payload.id), InternBody(payload))
  }

  /** With a valid session the PUT is saved when the row exists and is 404 otherwise. */
  lemma PersistRequestServed(payload: Intern, found: bool)
    requires payload.id != ""
    ensures Status(PersistRequest(payload), true, found) == (if found then 200 else 404)
  {
    RouteIdOfPath(payload.id);
  }

  const UpdateFailed := "Failed to update intern"
  const CreateFailed := "Create failed"
  const NoDataRowsMessage := "CSV file has no data rows."
  const ImportFailed := "Failed to import CSV."

  const CreateRequestPath := InternsPath
  const BulkPath := "/api/interns/bulk"
  const SeedPath := "/api/seed"

  /** The create request: a POST of the form's record to the collection. */
  function CreateRequest(f: FormState): Request {
    Request(Post, CreateRequestPath, RecordBody(CreateRecord(f)))
  }

  function DeleteRequest(id: string): Request {
    Request(Delete, InternPath(id), NoBody)
  }

  /** `prev.map(item => item.id === u.id ? u : item)` when the save returned `u`. */
  function Merged(xs: seq<Intern>, reply: Reply<Intern>): seq<Intern> {
    if reply.Ok? then ReplaceById(xs, reply.value.id, reply.value) else xs
  }

  /** `[u, ...prev]` when the create returned `u`. */
  function Created(xs: seq<Intern>, reply: Reply<Intern>): seq<Intern> {
    if reply.Ok? then [reply.value] + xs else xs
  }

  // ------------------------------------------------------------------- state

  class Admin {
    var interns: seq<Intern>
    var expandedId: Option<string>
    var query: string
    var sortKey: SortKey
    var sortDir: SortDir
    var secondarySortKey: SortKey
    var roleFilter: string
    var projectFilter: string
    var page: int
    var pageSize: int
    var showModal: bool
    var editingId: Option<string>
    var form: FormState
    var formError: string
    var importError: string
    var projectDrafts: map<string, string>
    var skillDrafts: map<string, string>

    /** The page size is one of the positive sizes the page offers. */
    predicate Valid()
      reads this
    {
      pageSize >= 1
    }

    constructor()
      ensures Valid()
      ensures interns == [] && expandedId == None && query == ""
      ensures sortKey == ByName && sortDir == Asc && secondarySortKey == ByRole
      ensures roleFilter == All && projectFilter == All && page == 1 && pageSize == 5
      ensures !showModal && editingId == None && form == EmptyForm && formError == "" && importError == ""
      ensures projectDrafts == map[] && skillDrafts == map[]
    {
      interns := [];
      expandedId := None;
      query := "";
      sortKey := ByName;
      sortDir := Asc;
      secondarySortKey := ByRole;
      roleFilter := All;
      projectFilter := All;
      page := 1;
      pageSize := 5;
      showModal := false;
      editingId := None;
      form := EmptyForm;
      formError := "";
      importError := "";
      projectDrafts := map[];
      skillDrafts := map[];
    }

    /** `filtered` */
    function View(): seq<Intern>
      reads this
    {
      Filtered(interns, query, roleFilter, projectFilter, sortKey, sortDir, secondarySortKey)
    }

    /** `pageCount` */
    function Pages(): int
      requires Valid()
      reads this
    {
      PageCount(|View()|, pageSize)
    }

    /** `paged` */
    function Shown(): seq<Intern>
      requires Valid()
      reads this
    {
      Paged(View(), page, pageSize)
    }

    /** `fetchInterns`: the list is replaced when the reply carries one. */
    method Load(reply: Option<seq<Intern>>)
      modifies this`interns
      ensures interns == (if reply.Some? then reply.value else old(interns))
    {
      if reply.Some? {
        interns := reply.value;
      }
    }

    method OpenAddModal()
      modifies this`editingId, this`form, this`formError, this`showModal
      ensures editingId == None && form == EmptyForm && formError == "" && showModal
    {
      editingId := None;
      form := EmptyForm;
      formError := "";
      showModal := true;
    }

    method OpenEditModal(x: Intern)
      modifies this`editingId, this`form, this`formError, this`showModal
      ensures editingId == Some(x.id) && form == FormOf(x) && formError == "" && showModal
    {
      editingId := Some(x.id);
      form := FormOf(x);
      formError := "";
      showModal := true;
    }

    method CloseModal()
      modifies this`showModal, this`form, this`formError
      ensures !showModal && form == EmptyForm && formError == ""
    {
      showModal := false;
      form := EmptyForm;
      formError := "";
    }

    /** `persistIntern(payload)`: on success the server's record replaces every
        element with its id; on failure the list is kept and the error message is
        returned for the caller to show or drop. */
    method PersistIntern(payload: Intern, reply: Reply<Intern>) returns (sent: Request, err: Option<string>)
      modifies this`interns
      ensures sent == PersistRequest(payload)
      ensures reply.Ok? ==> err == None && interns == Merged(old(interns), reply)
      ensures reply.Failed? ==> err == Some(ErrorMessage(reply.error, UpdateFailed)) && interns == old(interns)
    {
      sent := PersistRequest(payload);
      err := MergeSaved(reply);
    }

    /** The reply half of `persistIntern`. */
    method MergeSaved(reply: Reply<Intern>) returns (err: Option<string>)
      modifies this`interns
      ensures reply.Ok? ==> err == None && interns == Merged(old(interns), reply)
      ensures reply.Failed? ==> err == Some(ErrorMessage(reply.error, UpdateFailed)) && interns == old(interns)
    {
      match reply
      case Ok(u) =>
        interns := ReplaceById(interns, u.id, u);
        err := None;
      case Failed(e) =>
        err := Some(ErrorMessage(e, UpdateFailed));
    }

    /** `submitForm`: a failed check is shown and nothing is sent; an edit (a
        non-empty `editingId`) saves the form's record, a create posts it and puts
        the server's record first; success closes the form, failure shows why. */
    method SubmitForm(reply: Reply<Intern>) returns (sent: Option<Request>)
      modifies this`interns, this`formError, this`showModal, this`form
      ensures ValidateForm(old(form)) != "" ==>
        sent == None && formError == ValidateForm(old(form))
        && interns == old(interns) && form == old(form) && showModal == old(showModal)
      ensures ValidateForm(old(form)) == "" && Truthy(old(editingId)) ==>
        sent == Some(PersistRequest(FormRecord(old(editingId).value, old(form))))
        && Submitted(reply, Merged(old(interns), reply), UpdateFailed,
                     old(interns), old(form), old(showModal), old(formError))
      ensures ValidateForm(old(form)) == "" && !Truthy(old(editingId)) ==>
        sent == Some(CreateRequest(old(form)))
        && Submitted(reply, Created(old(interns), reply), CreateFailed,
                     old(interns), old(form), old(showModal), old(formError))
    {
      var error := ValidateForm(form);
      if error != "" {
        formError := error;
        sent := None;
        return;
      }
      if Truthy(editingId) {
        sent := SubmitEdit(reply);
      } else {
        sent := SubmitCreate(reply);
      }
    }

    /** The state after a submission's request: on success the list is `saved` and
        the form is closed and cleared; on failure only the error is set. */
    predicate Submitted(reply: Reply<Intern>, saved: seq<Intern>, fallback: string,
                        oldInterns: seq<Intern>, oldForm: FormState, oldShow: bool, oldError: string)
      reads this
    {
      if reply.Ok? then
        interns == saved && !showModal && form == EmptyForm && formError == ""
      else
        interns == oldInterns && form == oldForm && showModal == oldShow
        && formError == ErrorMessage(reply.error, fallback)
    }

    /** The edit branch of `submitForm`. */
    method SubmitEdit(reply: Reply<Intern>) returns (sent: Option<Request>)
      requires Truthy(editingId)
      modifies this`interns, this`formError, this`showModal, this`form
      ensures sent == Some(PersistRequest(FormRecord(old(editingId).value, old(form))))
      ensures Submitted(reply, Merged(old(interns), reply), UpdateFailed,
                        old(interns), old(form), old(showModal), old(formError))
    {
      sent := Some(PersistRequest(FormRecord(editingId.value, form)));
      ApplySaveReply(reply);
    }

    /** What the save reply does to the page: `persistIntern`'s merge, then the form. */
    method ApplySaveReply(reply: Reply<Intern>)
      modifies this`interns, this`formError, this`showModal, this`form
      ensures Submitted(reply, Merged(old(interns), reply), UpdateFailed,
                        old(interns), old(form), old(showModal), old(formError))
    {
      var err := MergeSaved(reply);
      ApplySaved(reply, err);
    }

    /** What the outcome of the save does to the form. */
    method ApplySaved(reply: Reply<Intern>, err: Option<string>)
      requires reply.Ok? <==> err == None
      requires reply.Failed? ==> err == Some(ErrorMessage(reply.error, UpdateFailed))
      modifies this`formError, this`showModal, this`form
      ensures Submitted(reply, interns, UpdateFailed, interns, old(form), old(showModal), old(formError))
    {
      if err.Some? {
        formError := err.value;
        return;
      }
      CloseModal();
    }

    /** The create branch of `submitForm`. */
    method SubmitCreate(reply: Reply<Intern>) returns (sent: Option<Request>)
      modifies this`interns, this`formError, this`showModal, this`form
      ensures sent == Some(CreateRequest(old(form)))
      ensures Submitted(reply, Created(old(interns), reply), CreateFailed,
                        old(interns), old(form), old(showModal), old(formError))
    {
      sent := Some(CreateRequest(form));
      ApplyCreated(reply);
    }

    /** What the create reply does to the page. */
    method ApplyCreated(reply: Reply<Intern>)
      modifies this`interns, this`formError, this`showModal, this`form
      ensures Submitted(reply, Created(old(interns), reply), CreateFailed,
                        old(interns), old(form), old(showModal), old(formError))
    {
      match reply {
        case Ok(u) =>
          interns := [u] + interns;
        case Failed(e) =>
          formError := ErrorMessage(e, CreateFailed);
          return;
      }
      CloseModal();
    }

    /** `deleteIntern(x)`: nothing happens unless confirmed, and nothing changes
        unless the server agrees; then every element with the id goes, and the
        expanded row is closed when it was this one. */
    method DeleteIntern(x: Intern, confirmed: bool, ok: bool) returns (sent: Option<Request>)
      modifies this`interns, this`expandedId
      ensures sent == (if confirmed then Some(DeleteRequest(x.id)) else None)
      ensures !(confirmed && ok) ==> interns == old(interns) && expandedId == old(expandedId)
      ensures confirmed && ok ==> interns == RemoveById(old(interns), x.id)
      ensures confirmed && ok ==> expandedId == (if old(expandedId) == Some(x.id) then None else old(expandedId))
    {
      if !confirmed {
        return None;
      }
      sent := Some(DeleteRequest(x.id));
      if !ok {
        return;
      }
      interns := RemoveById(interns, x.id);
      if expandedId == Some(x.id) {
        expandedId := None;
      }
    }

    /** The optimistic local update the tag handlers make, then the save whose
        failure they ignore. */
    method UpdateAndPersist(x: Intern, updated: Intern, reply: Reply<Intern>) returns (sent: Request)
      modifies this`interns
      ensures sent == PersistRequest(updated)
      ensures interns == Merged(ReplaceById(old(interns), x.id, updated), reply)
    {
      interns := ReplaceById(interns, x.id, updated);
      var err;
      sent, err := PersistIntern(updated, reply);
    }

    /** `addProject(x)`: a blank draft does nothing; otherwise the trimmed draft is
        added to the record's projects (left as they are when already there) and the
        draft is cleared. */
    method AddProject(x: Intern, reply: Reply<Intern>) returns (sent: Option<Request>)
      modifies this`interns, this`projectDrafts
      ensures Draft(old(projectDrafts), x.id) == None ==>
        sent == None && interns == old(interns) && projectDrafts == old(projectDrafts)
      ensures Draft(old(projectDrafts), x.id).Some? ==>
        var updated := x.(projects := AddTag(x.projects, Draft(old(projectDrafts), x.id).value));
        var local := ReplaceById(old(interns), x.id, updated);
        sent == Some(PersistRequest(updated))
        && interns == Merged(local, reply)
        && projectDrafts == old(projectDrafts)[x.id := ""]
    {
      var draft := Draft(projectDrafts, x.id);
      if draft == None {
        return None;
      }
      var updated := x.(projects := AddTag(x.projects, draft.value));
      var req := UpdateAndPersist(x, updated, reply);
      sent := Some(req);
      projectDrafts := projectDrafts[x.id := ""];
    }

    /** `removeProject(x, p)` */
    method RemoveProject(x: Intern, p: string, reply: Reply<Intern>) returns (sent: Request)
      modifies this`interns
      ensures var updated := x.(projects := RemoveTag(x.projects, p));
        var local := ReplaceById(old(interns), x.id, updated);
        sent == PersistRequest(updated)
        && interns == Merged(local, reply)
    {
      var updated := x.(projects := RemoveTag(x.projects, p));
      sent := UpdateAndPersist(x, updated, reply);
    }

    /** `addSkill(x)`, as `addProject` over the skills and their drafts. */
    method AddSkill(x: Intern, reply: Reply<Intern>) returns (sent: Option<Request>)
      modifies this`interns, this`skillDrafts
      ensures Draft(old(skillDrafts), x.id) == None ==>
        sent == None && interns == old(interns) && skillDrafts == old(skillDrafts)
      ensures Draft(old(skillDrafts), x.id).Some? ==>
        var updated := x.(skills := AddTag(x.skills, Draft(old(skillDrafts), x.id).value));
        var local := ReplaceById(old(interns), x.id, updated);
        sent == Some(PersistRequest(updated))
        && interns == Merged(local, reply)
        && skillDrafts == old(skillDrafts)[x.id := ""]
    {
      var draft := Draft(skillDrafts, x.id);
      if draft == None {
        return None;
      }
      var updated := x.(skills := AddTag(x.skills, draft.value));
      var req := UpdateAndPersist(x, updated, reply);
      sent := Some(req);
      skillDrafts := skillDrafts[x.id := ""];
    }

    /** `removeSkill(x, s)` */
    method RemoveSkill(x: Intern, s: string, reply: Reply<Intern>) returns (sent: Request)
      modifies this`interns
      ensures var updated := x.(skills := RemoveTag(x.skills, s));
        var local := ReplaceById(old(interns), x.id, updated);
        sent == PersistRequest(updated)
        && interns == Merged(local, reply)
    {
      var updated := x.(skills := RemoveTag(x.skills, s));
      sent := UpdateAndPersist(x, updated, reply);
    }

    /** `triggerImport`, before the file dialog opens. */
    method TriggerImport()
      modifies this`importError
      ensures importError == ""
    {
      importError := "";
    }

    /** `handleImport(file)`: no file does nothing; a file without data rows sets an
        error and sends nothing; otherwise the records are sent in one bulk request,
        and the list the server answers with replaces the page's. */
    method HandleImport(file: Option<string>, reply: Reply<Option<seq<Intern>>>) returns (sent: Option<Request>)
      modifies this`interns, this`importError
      ensures file == None ==> sent == None && interns == old(interns) && importError == old(importError)
      ensures file.Some? && PlanImport(file.value).NoDataRows? ==>
        sent == None && interns == old(interns) && importError == NoDataRowsMessage
      ensures file.Some? && PlanImport(file.value).Send? ==>
        sent == Some(Request(Post, BulkPath, BulkBody(PlanImport(file.value).records)))
        && (reply.Failed? ==> interns == old(interns) && importError == ImportFailed)
        && (reply.Ok? ==>
              importError == old(importError)
              && interns == (if reply.value.Some? then reply.value.value else old(interns)))
    {
      if file == None {
        return None;
      }
      match PlanImport(file.value)
      case NoDataRows =>
        importError := NoDataRowsMessage;
        sent := None;
      case Send(records) =>
        sent := Some(Request(Post, BulkPath, BulkBody(records)));
        match reply
        case Failed(_) =>
          importError := ImportFailed;
        case Ok(data) =>
          if data.Some? {
            interns := data.value;
          }
    }

    /** `handleExport`: the file offered for download is `toCSV(interns)`. */
    method Export() returns (csv: string)
      ensures csv == CsvText(interns)
    {
      csv := ToCsv(interns);
    }

    /** `resetSampleData`: asks the server to reseed (the reload that follows is
        `Load`) and resets the view to the first page with no filters. */
    method ResetSampleData() returns (sent: Request)
      modifies this`expandedId, this`page, this`roleFilter, this`projectFilter, this`query
      ensures sent == Request(Post, SeedPath, NoBody)
      ensures expandedId == None && page == 1 && roleFilter == All && projectFilter == All && query == ""
    {
      sent := Request(Post, SeedPath, NoBody);
      expandedId := None;
      page := 1;
      roleFilter := All;
      projectFilter := All;
      query := "";
    }

    method HandleQueryChange(value: string)
      modifies this`query, this`page
      ensures query == value && page == 1
    {
      query := value;
      page := 1;
    }

    method HandleRoleFilterChange(value: string)
      modifies this`roleFilter, this`page
      ensures roleFilter == value && page == 1
    {
      roleFilter := value;
      page := 1;
    }

    method HandleProjectFilterChange(value: string)
      modifies this`projectFilter, this`page
      ensures projectFilter == value && page == 1
    {
      projectFilter := value;
      page := 1;
    }

    method HandlePageSizeChange(value: int)
      requires value >= 1
      modifies this`pageSize, this`page
      ensures Valid() && pageSize == value && page == 1
    {
      pageSize := value;
      page := 1;
    }
  }

  /** After any filter change the first page is shown: it is the start of the
      filtered, sorted list, and it is non-empty when anything matches. */
  lemma ResetShowsFirstPage(a: Admin)
    requires a.Valid() && a.page == 1
    ensures a.Shown() == a.View()[..if |a.View()| < a.pageSize then |a.View()| else a.pageSize]
    ensures |a.View()| > 0 ==> |a.Shown()| > 0
  {
    PagedWindow(a.View(), 1, a.pageSize);
    if |a.View()| > 0 {
      PagedNonEmpty(a.View(), 1, a.pageSize);
    }
  }

  /** Deleting twice is deleting once. */
  lemma {:induction false} RemoveByIdTwice(xs: seq<Intern>, id: string)
    ensures RemoveById(RemoveById(xs, id), id) == RemoveById(xs, id)
  {
    var r := RemoveById(xs, id);
    RemoveByIdSpec(xs, id);
    assert forall i :: 0 <= i < |r| ==> r[i] in r;
    FilterAll(r, (x: Intern) => x.id != id);
  }
}
