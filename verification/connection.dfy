/** The start-up infrastructure probe `checkSupabaseConnection`
    (`services/supabaseClient.ts`). It reads the `supabase_setup_confirmed`
    flag of browser storage, probes the `subjects` table, and classifies the
    outcome as connected, connected but needing the schema, or failed. The
    probe's outcome and the stored flag are inputs; the flag after the call
    is part of the result. */
module Connection {
  import opened Wrappers
  import opened Strings

  /** PostgreSQL's "undefined table" error code. */
  const UndefinedTableCode: string := "42P01"
  /** PostgREST's "no rows" error code, also read as a missing table. */
  const NoRowsCode: string := "PGRST116"
  const AuthErrorText: string := "Auth Error: Check your Supabase URL and Anon Key."

  /** The error object of the table probe; every field may be absent. */
  datatype TableError = TableError(code: Option<string>, message: Option<string>, status: Option<int>)

  /** How the probe ended: the query succeeded, it returned an error, or the
      call threw (with the thrown value's `message`, if any). */
  datatype Probe = TableOk | TableFailed(err: TableError) | Thrown(message: Option<string>)

  /** The object the probe returns; `needsSetup` and `error` are absent from
      some of its return statements. */
  datatype Status = Status(connected: bool, needsSetup: Option<bool>, error: Option<string>)

  /** The probe's result and the stored confirmation flag afterwards. */
  datatype Check = Check(status: Status, confirmed: bool)

  /** `message?.toLowerCase().includes(needle)`, false when there is no message. */
  predicate LowerMentions(message: Option<string>, needle: string) {
    message.Some? && Includes(ToLower(message.value), needle)
  }

  /** `isMissingTable`: one of two codes, or a message that, lower-cased,
      says the relation does not exist or could not be found. */
  predicate IsMissingTable(e: TableError) {
    || e.code == Some(UndefinedTableCode)
    || e.code == Some(NoRowsCode)
    || LowerMentions(e.message, "does not exist")
    || LowerMentions(e.message, "could not find")
  }

  /** `isAuthError`: status 401 or 403, or a message containing `JWT` as
      written (this test does not lower-case). */
  predicate IsAuthError(e: TableError) {
    e.status == Some(401) || e.status == Some(403) || (e.message.Some? && Includes(e.message.value, "JWT"))
  }

  const Connected: Status := Status(true, Some(false), None)

  /** `checkSupabaseConnection`. A stored confirmation turns every failure
      into a plain "connected"; otherwise a missing table asks for setup, an
      authentication failure gets a fixed text, and any other failure
      reports its own message. Only a successful probe sets the flag. */
  function CheckConnection(confirmed: bool, probe: Probe): (r: Check)
    ensures r.confirmed <==> confirmed || probe.TableOk?
    ensures r.status.connected <==>
              probe.TableOk? || confirmed || (probe.TableFailed? && IsMissingTable(probe.err))
    ensures r.status.connected ==> r.status.error.None? && r.status.needsSetup.Some?
    ensures r.status.needsSetup == Some(true) <==>
              !confirmed && probe.TableFailed? && IsMissingTable(probe.err)
    ensures !r.status.connected ==> r.status.needsSetup.None?
    ensures !r.status.connected && probe.TableFailed? ==>
              r.status.error == if IsAuthError(probe.err) then Some(AuthErrorText) else probe.err.message
    ensures !r.status.connected && probe.Thrown? ==> r.status.error == probe.message
  {
    match probe
    case TableOk => Check(Connected, true)
    case TableFailed(e) =>
      if confirmed then Check(Connected, confirmed)
      else if IsMissingTable(e) then Check(Status(true, Some(true), None), confirmed)
      else if IsAuthError(e) then Check(Status(false, None, Some(AuthErrorText)), confirmed)
      else Check(Status(false, None, e.message), confirmed)
    case Thrown(message) =>
      if confirmed then Check(Connected, confirmed)
      else Check(Status(false, None, message), confirmed)
  }

  /** Once one probe has succeeded, every later probe reports a working,
      fully set-up backend, whatever happens to it: the flag is sticky. */
  lemma ConfirmationSticks(confirmed: bool, later: Probe)
    ensures CheckConnection(CheckConnection(confirmed, TableOk).confirmed, later) == Check(Connected, true)
  {
  }

  /** A missing-table verdict takes precedence over an authentication
      failure reported by the same error. */
  lemma MissingTableBeforeAuth(e: TableError)
    requires IsMissingTable(e) && IsAuthError(e)
    ensures CheckConnection(false, TableFailed(e)).status == Status(true, Some(true), None)
  {
  }

  /** The error with its message lower-cased. */
  function Lowered(e: TableError): (r: TableError)
    ensures r.code == e.code && r.status == e.status && r.message.Some? == e.message.Some?
  {
    e.(message := if e.message.Some? then Some(ToLower(e.message.value)) else None)
  }

  lemma ToLowerIdempotent(s: string)
    ensures ToLower(ToLower(s)) == ToLower(s)
  {
  }

  /** The missing-table test does not depend on the case of the message. */
  lemma MissingTableIgnoresCase(e: TableError)
    ensures IsMissingTable(Lowered(e)) <==> IsMissingTable(e)
  {
    if e.message.Some? {
      ToLowerIdempotent(e.message.value);
    }
  }

  /** A lower-cased message holds no `J`, so it never contains `JWT`. */
  lemma LoweredHasNoJwt(m: string)
    ensures !Includes(ToLower(m), "JWT")
  {
    var t := ToLower(m);
    forall i ensures !OccursAt(t, "JWT", i) {
      if 0 <= i && i + 3 <= |t| {
        assert t[i] != 'J' by { assert t[i] == LowerChar(m[i]); }
        assert t[i..i + 3][0] == t[i];
      }
    }
  }

  /** The authentication test does: with no 401/403 status, the same error
      with its message lower-cased is never an authentication failure, so
      when the table is not reported missing a `jwt ...` message is shown as
      it stands instead of the authentication text. */
  lemma AuthTestIsCaseSensitive(e: TableError)
    requires e.status != Some(401) && e.status != Some(403)
    ensures !IsAuthError(Lowered(e))
    ensures !IsMissingTable(e) ==>
              CheckConnection(false, TableFailed(Lowered(e))).status == Status(false, None, Lowered(e).message)
  {
    if e.message.Some? {
      LoweredHasNoJwt(e.message.value);
    }
    MissingTableIgnoresCase(e);
  }
}
