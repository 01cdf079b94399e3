/**
 The per-workspace configuration store. The pickle file holding a map from
 team id to workspace record is modelled as a `StoreFile` value that each
 operation reads and, when it writes, returns anew.
 */
module WorkspaceStore {
  import opened Wrappers

  type TeamId = string
  type UserId = string

  /** The record kept for one workspace; `installedAt` is the ISO time at
      which it was first stored. */
  datatype Workspace = Workspace(
    teamId: TeamId,
    teamName: string,
    admins: seq<UserId>,
    incompatiblePairs: seq<(UserId, UserId)>,
    installedAt: string)

  type Store = map<TeamId, Workspace>

  /** The store file: absent, present but not loadable, or holding a map. */
  datatype StoreFile = Missing | Unreadable | Saved(data: Store)

  /** The map a read sees: a missing or unloadable file reads as empty. */
  function Load(file: StoreFile): (data: Store) {
    if file.Saved? then file.data else map[]
  }

  /** A team id Python treats as true: given and not the empty string. */
  predicate Truthy(teamId: Option<TeamId>) {
    teamId.Some? && teamId.value != ""
  }

  /** What `get_workspace_info` returns: one team's record (or `None`), or a
      whole map of teams. */
  datatype Info = One(workspace: Option<Workspace>) | All(workspaces: Store)

  /**
   `get_workspace_info(team_id)`. With a loadable file and a truthy id it
   looks the team up; with no id (or an empty one) it returns every team;
   when the file is missing or unloadable it returns an empty map whether or
   not an id was given.
   */
  function GetWorkspaceInfo(file: StoreFile, teamId: Option<TeamId>): (info: Info)
    ensures info.One? <==> file.Saved? && Truthy(teamId)
    ensures info.One? ==> (info.workspace.Some? <==> teamId.value in file.data)
    ensures info.One? && info.workspace.Some? ==> info.workspace.value == file.data[teamId.value]
    ensures info.All? && file.Saved? ==> info.workspaces == file.data
    ensures !file.Saved? ==> info == All(map[])
  {
    match file
    case Saved(data) =>
      if Truthy(teamId) then
        One(if teamId.value in data then Some(data[teamId.value]) else None)
      else
        All(data)
    case _ => All(map[])
  }

  /** `get_workspace_info()` with no id, as `ensure_workspace_exists` and
      `update_workspace_admins` call it, returns every team `Load` reads, so
      those two operations start from `Load(file)`. */
  lemma GetAllIsLoad(file: StoreFile)
    ensures GetWorkspaceInfo(file, None) == All(Load(file))
  {
  }

  /** The record `ensure_workspace_exists` stores for a team it has not seen. */
  function NewWorkspace(teamId: TeamId, teamName: string, installedAt: string): (w: Workspace)
    ensures w.teamId == teamId && w.teamName == teamName
    ensures w.admins == [] && w.incompatiblePairs == []
    ensures w.installedAt == installedAt
  {
    Workspace(teamId, teamName, [], [], installedAt)
  }

  /** The record an operation returns and the store file it leaves behind. */
  datatype Ensured = Ensured(workspace: Workspace, file: StoreFile)

  /**
   `ensure_workspace_exists(team_id, team_name)`, with `now` standing for
   the clock reading. A team already stored keeps its record and the file is
   not written; otherwise a fresh record is added to what could be read and
   the file is rewritten. Either way the team is then stored with the
   returned record, and no other team's record changes.
   */
  function EnsureWorkspaceExists(file: StoreFile, teamId: TeamId, teamName: string, now: string): (r: Ensured)
    ensures r.file.Saved? && teamId in r.file.data && r.file.data[teamId] == r.workspace
    ensures teamId in Load(file) ==> r.file == file && r.workspace == Load(file)[teamId]
    ensures teamId !in Load(file) ==> r.workspace == NewWorkspace(teamId, teamName, now)
    ensures r.file.data.Keys == Load(file).Keys + {teamId}
    ensures forall t | t in Load(file) && t != teamId :: r.file.data[t] == Load(file)[t]
  {
    var data := Load(file);
    if teamId in data then
      Ensured(data[teamId], file)
    else
      var w := NewWorkspace(teamId, teamName, now);
      Ensured(w, Saved(data[teamId := w]))
  }

  /**
   `update_workspace_admins(team_id, admin_ids)`. A stored team gets exactly
   `admins` as its admin list, every other field and every other team
   unchanged; for a team not stored nothing is written and no record is
   created.
   */
  function UpdateWorkspaceAdmins(file: StoreFile, teamId: TeamId, admins: seq<UserId>): (file': StoreFile)
    ensures teamId !in Load(file) ==> file' == file
    ensures teamId in Load(file) ==> file'.Saved? && file'.data.Keys == Load(file).Keys
    ensures teamId in Load(file) ==> file'.data[teamId] == Load(file)[teamId].(admins := admins)
    ensures forall t | t in Load(file) && t != teamId :: t in Load(file') && Load(file')[t] == Load(file)[t]
  {
    var data := Load(file);
    if teamId in data then
      Saved(data[teamId := data[teamId].(admins := admins)])
    else
      file
  }

  /** A second `ensure_workspace_exists` for the same team, whatever name and
      clock it is given, returns the same record and writes nothing. */
  lemma EnsureIdempotent(file: StoreFile, teamId: TeamId, name1: string, now1: string, name2: string, now2: string)
    ensures var first := EnsureWorkspaceExists(file, teamId, name1, now1);
      EnsureWorkspaceExists(first.file, teamId, name2, now2) == first
  {
  }

  /** On a missing or unloadable file, `ensure_workspace_exists` leaves a file
      holding the new team alone. */
  lemma EnsureOnEmptyStore(file: StoreFile, teamId: TeamId, teamName: string, now: string)
    requires !file.Saved?
    ensures EnsureWorkspaceExists(file, teamId, teamName, now).file
      == Saved(map[teamId := NewWorkspace(teamId, teamName, now)])
  {
  }

  /** Reading a team back after `ensure_workspace_exists` gives the record it
      returned. */
  lemma EnsureThenGet(file: StoreFile, teamId: TeamId, teamName: string, now: string)
    requires teamId != ""
    ensures var r := EnsureWorkspaceExists(file, teamId, teamName, now);
      GetWorkspaceInfo(r.file, Some(teamId)) == One(Some(r.workspace))
  {
  }

  /** Reading a team back after `update_workspace_admins` shows exactly the
      new admins; for a team that was not stored it still reads as absent. */
  lemma UpdateThenGet(file: StoreFile, teamId: TeamId, admins: seq<UserId>)
    requires file.Saved? && teamId != ""
    ensures var info := GetWorkspaceInfo(UpdateWorkspaceAdmins(file, teamId, admins), Some(teamId));
      && (teamId in file.data ==> info.workspace.Some? && info.workspace.value.admins == admins)
      && (teamId !in file.data ==> info == One(None))
  {
  }

  /** Updating admins twice is the same as updating them once with the
      second list. */
  lemma UpdateLastWins(file: StoreFile, teamId: TeamId, first: seq<UserId>, second: seq<UserId>)
    ensures UpdateWorkspaceAdmins(UpdateWorkspaceAdmins(file, teamId, first), teamId, second)
      == UpdateWorkspaceAdmins(file, teamId, second)
  {
  }

  /** `update_workspace_admins` never changes which teams are stored, so a
      later `ensure_workspace_exists` on the team sees the record (with its
      original name and install time) and returns it with the new admins. */
  lemma EnsureAfterUpdate(file: StoreFile, teamId: TeamId, admins: seq<UserId>, teamName: string, now: string)
    requires teamId in Load(file)
    ensures var w := EnsureWorkspaceExists(UpdateWorkspaceAdmins(file, teamId, admins), teamId, teamName, now).workspace;
      && w.admins == admins
      && w.teamName == Load(file)[teamId].teamName
      && w.installedAt == Load(file)[teamId].installedAt
  {
  }
}
