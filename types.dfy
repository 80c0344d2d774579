/** The record shapes shared by the client and the API (src/types.ts, api/_db.ts). */
module Types {

  datatype Option<T> = None | Some(value: T)

  /** One intern as the UI and the API exchange it: every field present, lists ordered. */
  datatype Intern = Intern(
    id: string,
    name: string,
    role: string,
    email: string,
    phone: string,
    imageUrl: string,
    projects: seq<string>,
    manager: string,
    startDate: string,
    performance: string,
    skills: seq<string>,
    department: string)

  /** The keys the admin table can sort by. */
  datatype SortKey = ByName | ByRole | ByProjects

  datatype SortDir = Asc | Desc

  /** The admin form: the two list fields are edited as comma-separated text. */
  datatype FormState = FormState(
    id: string,
    name: string,
    role: string,
    email: string,
    phone: string,
    imageUrl: string,
    projectsText: string,
    manager: string,
    startDate: string,
    performance: string,
    skillsText: string,
    department: string)

  const EmptyForm := FormState("", "", "", "", "", "", "", "", "", "", "", "")

  /** A record as it travels to the create and bulk endpoints: any field may be
      missing (`undefined` in the JSON body). */
  datatype Incoming = Incoming(
    id: Option<string>,
    name: Option<string>,
    role: Option<string>,
    email: Option<string>,
    phone: Option<string>,
    imageUrl: Option<string>,
    projects: Option<seq<string>>,
    manager: Option<string>,
    startDate: Option<string>,
    performance: Option<string>,
    skills: Option<seq<string>>,
    department: Option<string>)

  const NoFields := Incoming(None, None, None, None, None, None, None, None, None, None, None, None)

  /** `value ?? fallback` */
  function OrElse<T>(o: Option<T>, fallback: T): T {
    match o
    case Some(v) => v
    case None => fallback
  }

  /** JavaScript truthiness of an optional string: present and non-empty. */
  predicate Truthy(o: Option<string>) {
    o.Some? && o.value != ""
  }
}
