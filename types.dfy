/** The data the profile browser works on: the records declared in
    src/types/repo.ts and src/types/user.ts, and the component's sort settings. */
module Types {

  /** A nullable value: `None` is JavaScript's `null` (or a missing field). */
  datatype Option<+T> = None | Some(value: T) {

    /** The value, or `default` when there is none (the `x || default` idiom). */
    function GetOr(default: T): T {
      match this
      case Some(v) => v
      case None => default
    }
  }

  /** A looked-up account. `repos` is declared non-null in user.ts, but the
      component reads it with `?.`, so its absence is modelled too. */
  datatype Profile = Profile(
    id: int,
    login: string,
    avatarUrl: string,
    name: string,
    location: string,
    repos: Option<seq<Repo>>)

  /** `User` in user.ts is a profile or `null`. */
  type User = Option<Profile>

  /** One repository row; every field is nullable. */
  datatype Repo = Repo(
    id: Option<int>,
    name: Option<string>,
    fullName: Option<string>,
    htmlUrl: Option<string>,
    description: Option<string>,
    fork: Option<bool>,
    url: Option<string>,
    createdAt: Option<string>,
    updatedAt: Option<string>,
    pushedAt: Option<string>,
    language: Option<string>,
    forksCount: Option<int>,
    openIssuesCount: Option<int>,
    owner: User)

  /** The column a user can sort by, `'name' | 'language'`. */
  datatype SortKey = Name | Language

  /** `'asc' | 'desc'`. */
  datatype SortOrder = Asc | Desc

  /** The pair of component states `sortKey` (nullable) and `sortOrder`. */
  datatype SortState = SortState(key: Option<SortKey>, order: SortOrder)

  /** The settings a fresh view and a new lookup start from. */
  const INITIAL_SORT: SortState := SortState(None, Asc)

  /** The payload of a "dataSaved" push event, `{ user }`. */
  datatype DataSaved = DataSaved(user: User)

  /** How an awaited HTTP request ended: with a body, or with a rejection. */
  datatype Reply<+T> = Received(data: T) | Rejected
}
