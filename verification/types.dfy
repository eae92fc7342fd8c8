/** The records of `types.ts` that the modelled components read and build. */
module Types {
  import opened Wrappers

  /** `UserRole`. */
  datatype Role = User | Admin

  /** `UserProfile`: the signed-in person. `email` and `rollNo` are optional fields. */
  datatype UserProfile = UserProfile(
    id: string,
    username: string,
    email: Option<string>,
    rollNo: Option<string>,
    role: Role)

  /** `Category`: the three kinds of library content. */
  datatype Category = Assignments | Notes | LabResources

  /** The string a category is stored and queried under. */
  function CategoryName(c: Category): (r: string)
    ensures r != []
  {
    match c
    case Assignments => "Assignments"
    case Notes => "Notes"
    case LabResources => "Lab Resources"
  }

  /** The category selected by an option value of a category `<select>`;
      the empty placeholder value `''` selects none. */
  function ParseCategory(s: string): (r: Option<Category>)
    ensures r.Some? ==> CategoryName(r.value) == s
    ensures r.None? ==> forall c: Category :: CategoryName(c) != s
  {
    if s == "Assignments" then Some(Assignments)
    else if s == "Notes" then Some(Notes)
    else if s == "Lab Resources" then Some(LabResources)
    else None
  }

  /** Category names are distinct and parse back to their category. */
  lemma CategoryNameRoundTrip(c: Category)
    ensures ParseCategory(CategoryName(c)) == Some(c)
  {
  }

  /** `AcademicFile`: a row of the `files` table. `unitNo` is null for
      categories without units. */
  datatype AcademicFile = AcademicFile(
    id: string,
    subjectId: string,
    category: Category,
    fileName: string,
    fileUrl: string,
    uploadedAt: string,
    studentName: string,
    rollNo: string,
    userEmail: Option<string>,
    unitNo: Option<string>)
}
