/** The transfer command's flags (transfer.go): package-level variables that
    the flag parser fills, and the pre-run hook that checks and completes them
    before the migration starts. */
module Command {
  import opened Wrappers

  /** The values of the transfer command's flags. */
  datatype Settings = Settings(fromHost: string, toHost: string,
                               fromKeyspace: string, toKeyspace: string,
                               table: string, skipCreateTables: bool,
                               skipRows: int, skipInsertRowErrors: bool)

  const FromHostMissing := "FROM host is mandatory"
  const ToHostMissing := "TO host is mandatory"

  /** The pre-run hook as a function of the flags: both hosts are mandatory,
      the source host checked first, and a missing target keyspace is the
      source keyspace. */
  function Resolve(s: Settings): (r: Result<Settings, string>)
    ensures r.Err? <==> s.fromHost == "" || s.toHost == ""
    ensures r.Err? ==> r.error == if s.fromHost == "" then FromHostMissing else ToHostMissing
    ensures r.Ok? ==> r.value.(toKeyspace := s.toKeyspace) == s
    ensures r.Ok? && s.toKeyspace != "" ==> r.value.toKeyspace == s.toKeyspace
    ensures r.Ok? && s.toKeyspace == "" ==> r.value.toKeyspace == s.fromKeyspace
  {
    if s.fromHost == "" then Err(FromHostMissing)
    else if s.toHost == "" then Err(ToHostMissing)
    else if s.toKeyspace == "" then Ok(s.(toKeyspace := s.fromKeyspace))
    else Ok(s)
  }

  /** Running the hook on flags it has already completed changes nothing. */
  lemma ResolveIdempotent(s: Settings)
    requires Resolve(s).Ok?
    ensures Resolve(Resolve(s).value) == Resolve(s)
  {
  }

  /** The package variables the flags are bound to, and the hook that checks
      them and fills in the target keyspace in place. */
  class Flags {
    var settings: Settings

    /** Every flag at its default: empty texts, false, and zero rows to skip. */
    constructor ()
      ensures settings == Settings("", "", "", "", "", false, 0, false)
    {
      settings := Settings("", "", "", "", "", false, 0, false);
    }

    /** PreRunE: an error for a missing host, leaving the flags as they are;
        otherwise the target keyspace is completed. */
    method PreRun() returns (err: Option<string>)
      modifies this
      ensures err.Some? <==> Resolve(old(settings)).Err?
      ensures err.Some? ==> err.value == Resolve(old(settings)).error && settings == old(settings)
      ensures err.None? ==> settings == Resolve(old(settings)).value
    {
      if settings.fromHost == "" {
        return Some(FromHostMissing);
      }
      if settings.toHost == "" {
        return Some(ToHostMissing);
      }
      if settings.toKeyspace == "" {
        settings := settings.(toKeyspace := settings.fromKeyspace);
      }
      return None;
    }
  }
}
