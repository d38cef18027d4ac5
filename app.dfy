/** The state of the profile browser component (`App` in src/App.tsx) and
    the handlers that update it. Each React state setter becomes an
    assignment to a field; the outcomes of the HTTP calls and the push
    payload are parameters. */
module App {
  import opened Types
  import RepoView
  import SortToggle

  class ProfileBrowser {
    var user: User
    var searchTerm: string
    var sortKey: Option<SortKey>
    var sortOrder: SortOrder

    /** The sort settings as one value. */
    function Settings(): SortState
      reads this
    {
      SortState(sortKey, sortOrder)
    }

    /** The initial state: no profile, empty search, unsorted, ascending. */
    constructor ()
      ensures user == None && searchTerm == "" && Settings() == INITIAL_SORT
    {
      user := None;
      searchTerm := "";
      sortKey := None;
      sortOrder := Asc;
    }

    /** `makeRequest` once the lookup has settled: a received profile
        replaces the user and resets search and sort; a rejected request
        leaves every field as it was. */
    method MakeRequest(reply: Reply<User>)
      modifies this
      ensures reply.Received? ==>
        user == reply.data && searchTerm == "" && Settings() == INITIAL_SORT
      ensures reply.Rejected? ==>
        user == old(user) && searchTerm == old(searchTerm) && Settings() == old(Settings())
    {
      if reply.Received? {
        user := reply.data;
        searchTerm := "";
        sortKey := None;
        sortOrder := Asc;
      }
    }

    /** The "dataSaved" handler: the pushed profile replaces the user, and
        search and sort stay as they are. */
    method OnDataSaved(payload: DataSaved)
      modifies this
      ensures user == payload.user
      ensures searchTerm == old(searchTerm) && Settings() == old(Settings())
    {
      user := payload.user;
    }

    /** The search box's change handler. */
    method SetSearchTerm(term: string)
      modifies this
      ensures searchTerm == term
      ensures user == old(user) && Settings() == old(Settings())
    {
      searchTerm := term;
    }

    /** `handleDelete` once the DELETE request has settled: only an ok
        response removes the rows carrying `id`; the rest of the profile,
        the search and the sort are untouched either way. */
    method HandleDelete(id: Option<int>, responseOk: bool)
      requires responseOk ==> user.Some? && user.value.repos.Some?
      modifies this
      ensures !responseOk ==> user == old(user)
      ensures responseOk ==>
        user == Some(old(user.value).(repos := Some(RepoView.RemoveId(old(user.value.repos.value), id))))
      ensures searchTerm == old(searchTerm) && Settings() == old(Settings())
    {
      if responseOk {
        var prev := user.value;
        user := Some(prev.(repos := Some(RepoView.RemoveId(prev.repos.value, id))));
      }
    }

    /** `handleSort`: a click on the header of `key`. */
    method HandleSort(key: SortKey)
      modifies this
      ensures Settings() == SortToggle.Toggle(old(Settings()), key)
      ensures user == old(user) && searchTerm == old(searchTerm)
    {
      var newOrder := if sortKey == Some(key) && sortOrder == Asc then Desc else Asc;
      sortKey := Some(key);
      sortOrder := newOrder;
    }
  }
}
