/** The top-level `App` component: who is signed in, which view is shown and
    whether the admin login modal is open, with the `academia_user` entry of
    browser storage held in the state as an optional saved profile. */
module App {
  import opened Wrappers
  import opened Types
  import Login
  import FileViewer

  const AdminId: string := "78945612130"
  const AdminPass: string := "Kasi@2006"

  /** The profile shown before anyone signs in, and after logout. */
  const DefaultUser: UserProfile := UserProfile("guest", "Student", None, None, User)

  /** The only profile a successful admin login produces. */
  const AdminProfile: UserProfile := UserProfile(AdminId, "Administrator", None, None, Admin)

  const InvalidCredentials: string :=
    "Invalid Admin Credentials. Please check your System ID and Password."

  /** `currentView`. */
  datatype View = Home | AssignmentsView | NotesView | LabManual | Upload | AdminView

  /** The component's state; `saved` is the stored `academia_user` profile. */
  datatype AppState = AppState(
    user: UserProfile,
    view: View,
    loginVisible: bool,
    saved: Option<UserProfile>)

  /** The state on first render, before the restore effect has run. */
  function Init(saved: Option<UserProfile>): (r: AppState)
    ensures r.user == DefaultUser && r.user.role == User && r.view == Home && !r.loginVisible
    ensures r.saved == saved
  {
    AppState(DefaultUser, Home, false, saved)
  }

  /** A login attempt's new state and the alert it raises, if any. */
  datatype LoginStep = LoginStep(state: AppState, alert: Option<string>)

  /** `handleLogin`: only the hard-coded credential pair signs in. On success
      the admin profile is signed in and persisted, the modal closes and the
      admin board is selected; otherwise an alert is raised and nothing changes. */
  function HandleLogin(st: AppState, id: string, password: string): (r: LoginStep)
    ensures r.alert.None? <==> id == AdminId && password == AdminPass
    ensures r.alert.None? ==>
              && r.state.user == UserProfile(id, "Administrator", None, None, Admin)
              && r.state.saved == Some(r.state.user)
              && !r.state.loginVisible
              && r.state.view == AdminView
    ensures r.alert.Some? ==> r.state == st && r.alert == Some(InvalidCredentials)
  {
    if id == AdminId && password == AdminPass then
      var newUser := UserProfile(id, "Administrator", None, None, Admin);
      LoginStep(st.(user := newUser, saved := Some(newUser), loginVisible := false, view := AdminView), None)
    else
      LoginStep(st, Some(InvalidCredentials))
  }

  /** `handleLogout`: back to the guest profile on the home view, with the
      stored profile removed. */
  function HandleLogout(st: AppState): (r: AppState)
    ensures r.user == DefaultUser && r.user.role == User
    ensures r.view == Home && r.saved.None?
    ensures r.loginVisible == st.loginVisible
  {
    st.(user := DefaultUser, view := Home, saved := None)
  }

  /** The restore-on-mount effect: a stored profile, when present, becomes the
      current user; the view is left alone. */
  function Restore(st: AppState): (r: AppState)
    ensures st.saved.Some? ==> r.user == st.saved.value
    ensures st.saved.None? ==> r.user == st.user
    ensures r.view == st.view && r.saved == st.saved && r.loginVisible == st.loginVisible
  {
    match st.saved
    case Some(p) => st.(user := p)
    case None => st
  }

  /** The logo's click handler: non-admins get the login modal, the admin goes home. */
  function LogoClick(st: AppState): (r: AppState)
    ensures st.user.role != Admin ==> r == st.(loginVisible := true)
    ensures st.user.role == Admin ==> r == st.(view := Home)
  {
    if st.user.role != Admin then st.(loginVisible := true) else st.(view := Home)
  }

  /** The modal's close button. */
  function CloseLogin(st: AppState): (r: AppState)
    ensures !r.loginVisible && r.(loginVisible := st.loginVisible) == st
  {
    st.(loginVisible := false)
  }

  /** `setCurrentView`, as called by the dashboard, the back buttons and the
      admin shield button. */
  function SelectView(st: AppState, v: View): (r: AppState)
    ensures r.view == v && r.(view := st.view) == st
  {
    st.(view := v)
  }

  /** What `renderContent` shows. */
  datatype Screen =
    | DashboardScreen(role: Role)
    | AdminDashboardScreen
    | FileViewerScreen(category: string)
    | UploaderScreen

  /** The category string each library view hands to the file viewer. The
      lab view passes `'Lab Manual'`, which is not the name of any `Category`. */
  function ViewerCategory(v: View): (r: Option<string>)
    ensures r.Some? <==> v in {AssignmentsView, NotesView, LabManual}
    ensures v == AssignmentsView ==> r == Some(CategoryName(Assignments))
    ensures v == NotesView ==> r == Some(CategoryName(Notes))
    ensures v == LabManual ==> r == Some("Lab Manual") && forall c: Category :: CategoryName(c) != r.value
  {
    match v
    case AssignmentsView => Some("Assignments")
    case NotesView => Some("Notes")
    case LabManual => Some("Lab Manual")
    case _ => None
  }

  /** `renderContent`: the admin board is shown exactly when the admin view is
      selected by an admin; a non-admin asking for it gets the dashboard. */
  function Render(st: AppState): (r: Screen)
    ensures r.AdminDashboardScreen? <==> st.view == AdminView && st.user.role == Admin
    ensures st.view == AdminView && st.user.role != Admin ==> r == DashboardScreen(st.user.role)
    ensures st.view == Home ==> r == DashboardScreen(st.user.role)
    ensures st.view == Upload ==> r == UploaderScreen
    ensures r.FileViewerScreen? <==> ViewerCategory(st.view).Some?
    ensures r.FileViewerScreen? ==> r.category == ViewerCategory(st.view).value
  {
    if st.view == AdminView then
      if st.user.role == Admin then AdminDashboardScreen else DashboardScreen(st.user.role)
    else
      match st.view
      case Home => DashboardScreen(st.user.role)
      case AssignmentsView => FileViewerScreen("Assignments")
      case NotesView => FileViewerScreen("Notes")
      case LabManual => FileViewerScreen("Lab Manual")
      case Upload => UploaderScreen
  }

  /** The user actions and effects that change the state. */
  datatype Event =
    | LoginAttempt(id: string, password: string)
    | Logout
    | Mount
    | Logo
    | Close
    | Navigate(v: View)

  function Step(st: AppState, e: Event): AppState {
    match e
    case LoginAttempt(id, pw) => HandleLogin(st, id, pw).state
    case Logout => HandleLogout(st)
    case Mount => Restore(st)
    case Logo => LogoClick(st)
    case Close => CloseLogin(st)
    case Navigate(v) => SelectView(st, v)
  }

  function Run(st: AppState, es: seq<Event>): AppState
    decreases |es|
  {
    if es == [] then st else Run(Step(st, es[0]), es[1..])
  }

  /** Every admin profile in the state, signed in or stored, is the one the
      credential check produces. */
  predicate AdminIsGenuine(st: AppState) {
    && (st.user.role == Admin ==> st.user == AdminProfile)
    && (st.saved.Some? && st.saved.value.role == Admin ==> st.saved.value == AdminProfile)
  }

  lemma StepKeepsAdminGenuine(st: AppState, e: Event)
    requires AdminIsGenuine(st)
    ensures AdminIsGenuine(Step(st, e))
  {
  }

  /** As long as storage only ever holds what the app wrote, no sequence of
      logins, logouts, restores and clicks signs in an admin other than the
      credential-checked one, so the admin board is reached only through the
      credential check. */
  lemma {:induction false} RunKeepsAdminGenuine(st: AppState, es: seq<Event>)
    requires AdminIsGenuine(st)
    ensures AdminIsGenuine(Run(st, es))
    ensures Render(Run(st, es)).AdminDashboardScreen? ==> Run(st, es).user == AdminProfile
    decreases |es|
  {
    if es != [] {
      StepKeepsAdminGenuine(st, es[0]);
      RunKeepsAdminGenuine(Step(st, es[0]), es[1..]);
    }
  }

  /** The restore effect trusts the stored role: a stored profile that claims
      the admin role, whatever its id, opens the admin board without the
      credential check. */
  lemma StoredAdminRoleIsTrusted(p: UserProfile)
    requires p.role == Admin
    ensures Render(Run(Init(Some(p)), [Mount, Navigate(AdminView)])) == AdminDashboardScreen
  {
    assert Run(Init(Some(p)), [Mount, Navigate(AdminView)]).user == p by {
      assert [Mount, Navigate(AdminView)][1..] == [Navigate(AdminView)];
      assert [Navigate(AdminView)][1..] == [];
    }
  }

  /** After a successful login, logging out leaves no admin anywhere. */
  lemma LoginThenLogout(st: AppState)
    ensures var s := Run(st, [LoginAttempt(AdminId, AdminPass), Logout]);
            s.user == DefaultUser && s.view == Home && s.saved.None? && !s.loginVisible
  {
    assert [LoginAttempt(AdminId, AdminPass), Logout][1..] == [Logout];
    assert [Logout][1..] == [];
  }

  /** The login form passes its fields through untrimmed, so an id typed with
      a stray leading space gets past the form but fails the credential check. */
  lemma PaddedIdIsRejected(st: AppState, error: string)
    ensures var sub := Login.HandleSubmit([' '] + AdminId, AdminPass, error);
            && sub.onLogin.Some?
            && HandleLogin(st, sub.onLogin.value.0, sub.onLogin.value.1).alert == Some(InvalidCredentials)
  {
    assert ([' '] + AdminId)[0] != AdminId[0];
  }

  /** The lab view hands the viewer the category string `'Lab Manual'`, while
      uploads are filed as `'Lab Resources'`: whatever the table holds and
      whichever subject is chosen, the lab view lists no files and offers no
      units. */
  lemma LabViewListsNothing(st: AppState, subjectId: string, table: seq<AcademicFile>)
    requires st.view == LabManual
    ensures Render(st) == FileViewerScreen("Lab Manual")
    ensures var v := FileViewer.ChooseSubject(FileViewer.Initial(Render(st).category), subjectId, Some(table), Some(table));
            v.files == [] && v.availableUnits == []
  {
    var v := FileViewer.ChooseSubject(FileViewer.Initial("Lab Manual"), subjectId, Some(table), Some(table));
    assert forall c: Category :: CategoryName(c) != "Lab Manual" by {
      assert ViewerCategory(LabManual) == Some("Lab Manual");
    }
    assert forall f | f in v.files :: CategoryName(f.category) == "Lab Manual";
    assert forall f :: f !in v.files;
  }
}
