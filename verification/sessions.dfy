/**
 * The `disconnect` handler of DataBase-Analyser/server.js: when a socket
 * leaves, the files its session opened or uploaded are deleted from the
 * upload directory and dropped from the parse cache, unless another session
 * still uses them, and the session itself is forgotten.
 *
 * The upload directory is the set of file names present in it (what
 * `existsSync` answers), the cache is the set of names it holds, and whether
 * `fs.unlink` succeeds for a name is a parameter. A failed unlink is caught:
 * the file stays and its cache entry is kept.
 */
module Sessions {
  import opened Wrappers
  import OrderedMap

  /** A user's session: the file being analysed and the files uploaded, each possibly unset. */
  datatype Session = Session(activeFile: Option<string>, uploadedFiles: Option<seq<string>>)

  /** The server state the handler touches: sessions by socket id, the upload directory and the cache's keys. */
  datatype Server = Server(sessions: OrderedMap.OMap<Session>, files: set<string>, cache: set<string>)

  /** JavaScript truthiness of an optional name: set and not the empty string. */
  predicate Truthy(name: Option<string>)
  {
    name.Some? && name.value != ""
  }

  /** The uploaded names a session lists (none when the list is unset). */
  function Uploads(s: Session): seq<string>
  {
    if s.uploadedFiles.Some? then s.uploadedFiles.value else []
  }

  /** Some session other than `id` has `f` as its active file. */
  predicate ActiveElsewhere(sessions: OrderedMap.OMap<Session>, id: string, f: string)
  {
    exists i :: 0 <= i < |sessions| && sessions[i].0 != id && sessions[i].1.activeFile == Some(f)
  }

  /** A session has `f` as its active file or lists it among its uploads. */
  predicate Uses(s: Session, f: string)
  {
    s.activeFile == Some(f) || (s.uploadedFiles.Some? && f in s.uploadedFiles.value)
  }

  /** Some session other than `id` has `f` as its active file or lists it among its uploads. */
  predicate UsedElsewhere(sessions: OrderedMap.OMap<Session>, id: string, f: string)
  {
    exists i :: 0 <= i < |sessions| && sessions[i].0 != id && Uses(sessions[i].1, f)
  }

  /** Delete `f` unless it is in use: only when it exists, and only if the unlink succeeds; the cache entry goes with the file. */
  function TryDelete(sv: Server, f: string, inUse: bool, unlinkOk: string -> bool): (r: Server)
    ensures r.sessions == sv.sessions && r.files <= sv.files
    ensures r.cache == sv.cache - (sv.files - r.files)
    ensures sv.files - r.files <= {f}
  {
    if !inUse && f in sv.files && unlinkOk(f) then sv.(files := sv.files - {f}, cache := sv.cache - {f}) else sv
  }

  /** The first clean-up: the session's active file, if set, unless another session has it active. */
  function ActiveStep(sv: Server, id: string, s: Session, unlinkOk: string -> bool): (r: Server)
    ensures r.sessions == sv.sessions && r.files <= sv.files
    ensures r.cache == sv.cache - (sv.files - r.files)
  {
    if Truthy(s.activeFile) then
      TryDelete(sv, s.activeFile.value, ActiveElsewhere(sv.sessions, id, s.activeFile.value), unlinkOk)
    else sv
  }

  /** The clean-up of one uploaded name: skipped when it is the active file, kept when another session uses it. */
  function UploadStep(sv: Server, id: string, s: Session, f: string, unlinkOk: string -> bool): (r: Server)
    ensures r.sessions == sv.sessions && r.files <= sv.files
    ensures r.cache == sv.cache - (sv.files - r.files)
  {
    if s.activeFile == Some(f) then sv else TryDelete(sv, f, UsedElsewhere(sv.sessions, id, f), unlinkOk)
  }

  /** The clean-up of a list of uploaded names, in order; each sees the deletions before it. */
  function UploadSteps(sv: Server, id: string, s: Session, names: seq<string>, unlinkOk: string -> bool): (r: Server)
    ensures r.sessions == sv.sessions && r.files <= sv.files
    ensures r.cache == sv.cache - (sv.files - r.files)
  {
    if |names| == 0 then sv
    else UploadStep(UploadSteps(sv, id, s, names[..|names| - 1], unlinkOk), id, s, names[|names| - 1], unlinkOk)
  }

  /** The whole handler: clean up after the session of `id`, if there is one, then forget the session. */
  function Disconnect(sv: Server, id: string, unlinkOk: string -> bool): (r: Server)
    ensures id !in OrderedMap.Keys(r.sessions)
    ensures forall k :: k != id ==> OrderedMap.Get(r.sessions, k) == OrderedMap.Get(sv.sessions, k)
    ensures r.files <= sv.files
    ensures r.cache == sv.cache - (sv.files - r.files)
  {
    var cleaned :=
      match OrderedMap.Get(sv.sessions, id)
      case None => sv
      case Some(s) => UploadSteps(ActiveStep(sv, id, s, unlinkOk), id, s, Uploads(s), unlinkOk);
    cleaned.(sessions := OrderedMap.Remove(sv.sessions, id))
  }

  /**
   * The files a leaving session releases: its active file when no other
   * session has it active, and each other uploaded name no other session
   * has active or uploaded.
   */
  predicate Released(sessions: OrderedMap.OMap<Session>, id: string, f: string)
  {
    match OrderedMap.Get(sessions, id)
    case None => false
    case Some(s) =>
      || (Truthy(s.activeFile) && s.activeFile.value == f && !ActiveElsewhere(sessions, id, f))
      || (f in Uploads(s) && s.activeFile != Some(f) && !UsedElsewhere(sessions, id, f))
  }

  /** The upload clean-up deletes exactly the present, unlinkable names of the list that are not active and not used elsewhere. */
  lemma {:induction false} UploadStepsDelete(sv: Server, id: string, s: Session, names: seq<string>, unlinkOk: string -> bool, f: string)
    ensures f in sv.files - UploadSteps(sv, id, s, names, unlinkOk).files
      <==> f in sv.files && unlinkOk(f) && f in names && s.activeFile != Some(f) && !UsedElsewhere(sv.sessions, id, f)
  {
    if |names| > 0 {
      var init, last := names[..|names| - 1], names[|names| - 1];
      UploadStepsDelete(sv, id, s, init, unlinkOk, f);
      assert names == init + [last];
      assert f in names <==> f in init || f == last;
    }
  }

  /** A file disappears from the upload directory exactly when it was there, its unlink succeeds and the leaving session releases it. */
  lemma DisconnectDeletes(sv: Server, id: string, unlinkOk: string -> bool, f: string)
    ensures f in sv.files - Disconnect(sv, id, unlinkOk).files <==> f in sv.files && unlinkOk(f) && Released(sv.sessions, id, f)
  {
    match OrderedMap.Get(sv.sessions, id)
    case None =>
    case Some(s) =>
      var sv1 := ActiveStep(sv, id, s, unlinkOk);
      UploadStepsDelete(sv1, id, s, Uploads(s), unlinkOk, f);
  }

  /** A socket without a session leaves the upload directory and the cache as they were. */
  lemma UnknownSocketDeletesNothing(sv: Server, id: string, unlinkOk: string -> bool)
    requires id !in OrderedMap.Keys(sv.sessions)
    ensures Disconnect(sv, id, unlinkOk).files == sv.files && Disconnect(sv, id, unlinkOk).cache == sv.cache
  {
  }

  /** The active file survives the disconnect, file and cache entry, while another session has it active. */
  lemma SharedActiveFileKept(sv: Server, id: string, unlinkOk: string -> bool, s: Session, f: string)
    requires OrderedMap.Get(sv.sessions, id) == Some(s) && s.activeFile == Some(f)
    requires ActiveElsewhere(sv.sessions, id, f)
    ensures f in Disconnect(sv, id, unlinkOk).files <==> f in sv.files
    ensures f in Disconnect(sv, id, unlinkOk).cache <==> f in sv.cache
  {
    DisconnectDeletes(sv, id, unlinkOk, f);
  }

  /** An uploaded name other than the active file survives while another session has it active or uploaded. */
  lemma SharedUploadKept(sv: Server, id: string, unlinkOk: string -> bool, s: Session, f: string)
    requires OrderedMap.Get(sv.sessions, id) == Some(s) && s.activeFile != Some(f)
    requires UsedElsewhere(sv.sessions, id, f)
    ensures f in Disconnect(sv, id, unlinkOk).files <==> f in sv.files
    ensures f in Disconnect(sv, id, unlinkOk).cache <==> f in sv.cache
  {
    DisconnectDeletes(sv, id, unlinkOk, f);
  }

  /**
   * The active-file check looks only at other sessions' active files: a file
   * another session has merely uploaded is deleted when the session that
   * has it active leaves.
   */
  lemma ActiveCheckIgnoresUploads()
    ensures var sv := Server([("a", Session(Some("x.db"), None)), ("b", Session(None, Some(["x.db"])))], {"x.db"}, {"x.db"});
      var r := Disconnect(sv, "a", _ => true);
      && UsedElsewhere(sv.sessions, "a", "x.db")
      && r.files == {} && r.cache == {}
      && OrderedMap.Get(r.sessions, "b") == Some(Session(None, Some(["x.db"])))
  {
    var sessions := [("a", Session(Some("x.db"), None)), ("b", Session(None, Some(["x.db"])))];
    assert sessions[1].1.uploadedFiles.value[0] == "x.db";
    assert !ActiveElsewhere(sessions, "a", "x.db");
    assert OrderedMap.IndexOf(sessions, "a") == 0;
  }

  /** Whether another session has `f` active: the first loop of the source, stopping at the first hit. */
  method IsActiveElsewhere(sessions: OrderedMap.OMap<Session>, id: string, f: string) returns (used: bool)
    ensures used <==> ActiveElsewhere(sessions, id, f)
  {
    used := false;
    var i := 0;
    while i < |sessions|
      invariant 0 <= i <= |sessions|
      invariant !used
      invariant forall j :: 0 <= j < i ==> !(sessions[j].0 != id && sessions[j].1.activeFile == Some(f))
    {
      if sessions[i].0 != id && sessions[i].1.activeFile == Some(f) {
        used := true;
        break;
      }
      i := i + 1;
    }
  }

  /** Whether another session has `f` active or uploaded: the second loop of the source. */
  method IsUsedElsewhere(sessions: OrderedMap.OMap<Session>, id: string, f: string) returns (used: bool)
    ensures used <==> UsedElsewhere(sessions, id, f)
  {
    used := false;
    var i := 0;
    while i < |sessions|
      invariant 0 <= i <= |sessions|
      invariant !used
      invariant forall j :: 0 <= j < i ==> !(sessions[j].0 != id && Uses(sessions[j].1, f))
    {
      var other := sessions[i].1;
      if sessions[i].0 != id && (other.activeFile == Some(f) || (other.uploadedFiles.Some? && f in other.uploadedFiles.value)) {
        used := true;
        break;
      }
      i := i + 1;
    }
  }

  /** The handler statement by statement, with the directory, the cache and the sessions as local state. */
  method HandleDisconnect(sv: Server, id: string, unlinkOk: string -> bool) returns (r: Server)
    ensures r == Disconnect(sv, id, unlinkOk)
  {
    var files, cache := sv.files, sv.cache;
    var userSession := OrderedMap.Get(sv.sessions, id);
    if userSession.Some? {
      var s := userSession.value;
      if Truthy(s.activeFile) {
        var f := s.activeFile.value;
        var used := IsActiveElsewhere(sv.sessions, id, f);
        if !used && f in files && unlinkOk(f) {
          files := files - {f};
          cache := cache - {f};
        }
      }
      assert Server(sv.sessions, files, cache) == ActiveStep(sv, id, s, unlinkOk);
      var names := Uploads(s);
      var j := 0;
      while j < |names|
        invariant 0 <= j <= |names|
        invariant Server(sv.sessions, files, cache) == UploadSteps(ActiveStep(sv, id, s, unlinkOk), id, s, names[..j], unlinkOk)
      {
        var f := names[j];
        assert names[..j + 1][..j] == names[..j];
        if s.activeFile != Some(f) {
          var used := IsUsedElsewhere(sv.sessions, id, f);
          if !used && f in files && unlinkOk(f) {
            files := files - {f};
            cache := cache - {f};
          }
        }
        j := j + 1;
      }
      assert names[..j] == names;
    }
    r := Server(OrderedMap.Remove(sv.sessions, id), files, cache);
  }
}
