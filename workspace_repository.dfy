/** The workspace catalog: workspaces keyed by id, changed in place. */
module WorkspaceRepo {
  import opened Wrappers
  import opened Model
  import Sets
  import opened CatalogErrors

  class WorkspaceRepository {
    var workspaces: map<int, Workspace>

    /** Every workspace is stored under its own id. */
    ghost predicate Valid()
      reads this
    {
      forall id :: id in workspaces ==> workspaces[id].id == id
    }

    constructor ()
      ensures Valid() && workspaces == map[]
    {
      workspaces := map[];
    }

    /** All stored workspaces, one per id, in an unspecified order. */
    method GetAllWorkspaces() returns (r: seq<Workspace>)
      requires Valid()
      ensures forall w :: w in r ==> w.id in workspaces && workspaces[w.id] == w
      ensures forall id :: id in workspaces ==> workspaces[id] in r
      ensures |r| == |workspaces|
    {
      r := [];
      var rest := workspaces.Keys;
      while rest != {}
        invariant rest <= workspaces.Keys
        invariant forall w :: w in r ==> w.id in workspaces && workspaces[w.id] == w && w.id !in rest
        invariant forall id :: id in workspaces && id !in rest ==> workspaces[id] in r
        invariant |r| + |rest| == |workspaces|
        decreases |rest|
      {
        Sets.HasElement(rest);
        var id :| id in rest;
        r := r + [workspaces[id]];
        rest := rest - {id};
      }
    }

    /** The workspace stored under id, or the "not exist" error. */
    function GetWorkspace(id: int): (r: Result<Workspace, CatalogError>)
      reads this
      requires Valid()
      ensures r.Ok? <==> id in workspaces
      ensures r.Ok? ==> r.value == workspaces[id] && r.value.id == id
      ensures r.Err? ==> r.error == NotExist(id)
    {
      if id !in workspaces then Err(NotExist(id)) else Ok(workspaces[id])
    }

    /** Adds a workspace under its id, which must not be taken yet. */
    method CreateWorkspace(w: Workspace) returns (r: Outcome<CatalogError>)
      requires Valid()
      modifies this
      ensures Valid()
      ensures r.Pass? <==> w.id !in old(workspaces)
      ensures r.Fail? ==> r.error == AlreadyExists && workspaces == old(workspaces)
      ensures r.Pass? ==> workspaces == old(workspaces)[w.id := w] && GetWorkspace(w.id) == Ok(w)
    {
      if w.id in workspaces {
        return Fail(AlreadyExists);
      }
      workspaces := workspaces[w.id := w];
      r := Pass;
    }

    /** Replaces the workspace stored under w's id, which must be present. */
    method UpdateWorkspace(w: Workspace) returns (r: Outcome<CatalogError>)
      requires Valid()
      modifies this
      ensures Valid()
      ensures r.Pass? <==> w.id in old(workspaces)
      ensures r.Fail? ==> r.error == DoesNotExist && workspaces == old(workspaces)
      ensures r.Pass? ==> workspaces == old(workspaces)[w.id := w]
    {
      if w.id !in workspaces {
        return Fail(DoesNotExist);
      }
      workspaces := workspaces[w.id := w];
      r := Pass;
    }

    /** Removes the workspace stored under id, which must be present. */
    method DeleteWorkspace(id: int) returns (r: Outcome<CatalogError>)
      requires Valid()
      modifies this
      ensures Valid()
      ensures r.Pass? <==> id in old(workspaces)
      ensures r.Fail? ==> r.error == DoesNotExist && workspaces == old(workspaces)
      ensures r.Pass? ==> workspaces == old(workspaces) - {id}
    {
      if id !in workspaces {
        return Fail(DoesNotExist);
      }
      workspaces := workspaces - {id};
      r := Pass;
    }
  }
}
