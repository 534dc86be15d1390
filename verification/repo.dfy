/**
 * The state a forge invocation sees, with the filesystem abstracted to maps.
 *
 * A repository folder holds `objects/<digest>` (file contents),
 * `commits/<digest>` (snapshot records) and `index` (path to digest).
 * Each of the three may be missing on disk, hence the `Option`s. The
 * working directory is a map from the path as the user typed it to the
 * text of the file; the remote is the directory named by `push`/`pull`.
 */
module RepoState {
  import opened Wrappers

  type Digest = string
  type Path = string
  type Content = string

  /** The staging index: path, exactly as given on the command line, to digest. */
  type Index = map<Path, Digest>

  /**
   * A commit file's JSON object. `commit` always writes all three keys;
   * a record copied in by `pull` may lack some, and each reader of a
   * record decides what a missing key means.
   */
  datatype Record = Record(timestamp: Option<string>, message: Option<string>, files: Option<Index>)

  /** `data.get('message', '')` */
  function MessageOf(rec: Record): string {
    rec.message.GetOr("")
  }

  /** `data.get('files', {})` */
  function FilesOf(rec: Record): Index {
    rec.files.GetOr(map[])
  }

  /** The two folders `push` and `pull` exchange; `None` is a missing folder. */
  datatype Store = Store(objects: Option<map<Digest, Content>>, commits: Option<map<Digest, Record>>)

  /** The repository folder `.forge`; `index` is `None` until first saved. */
  datatype Repo = Repo(store: Store, index: Option<Index>)

  /**
   * Everything a command can read or write. `repo` is `None` when the
   * repository folder does not exist; `remote` is `None` when the remote
   * directory does not exist.
   */
  datatype State = State(repo: Option<Repo>, working: map<Path, Content>, remote: Option<Store>)

  /** A command that reports the snapshot it wrote or went back to, with the new state. */
  datatype Done = Done(state: State, snapshot: Digest)

  datatype Error =
    | NotARepository       // `ensure_repo`: message and exit(1)
    | NoSuchPath           // a path argument rejected by the command-line parser
    | MissingFolder        // `objects` or `commits` folder missing: the command raises
    | NothingToCommit      // `commit` with an empty index
    | NoMatchingSnapshot   // `back` found no commit whose message matches
    | MalformedRecord      // `log` met a record without `timestamp` or `message`

  /** `_get_index`: the saved index, or the empty one when no index file exists. */
  function LoadIndex(repo: Repo): (idx: Index)
    ensures repo.index.Some? ==> idx == repo.index.value
    ensures repo.index.None? ==> idx == map[]
  {
    repo.index.GetOr(map[])
  }

  /** `_save_index`: replaces the whole index file. */
  function SaveIndex(repo: Repo, idx: Index): (r: Repo)
    ensures LoadIndex(r) == idx && r.index.Some?
    ensures r.store == repo.store
  {
    repo.(index := Some(idx))
  }

  /** `ensure_repo`: every command but `init` refuses to run without a repository. */
  function EnsureRepo(s: State): (r: Result<Repo, Error>)
    ensures r.Failure? <==> s.repo.None?
    ensures r.Failure? ==> r.error == NotARepository
    ensures r.Success? ==> Some(r.value) == s.repo
  {
    if s.repo.None? then Failure(NotARepository) else Success(s.repo.value)
  }

  /** The objects folder as a map; a missing folder holds no object. */
  function ObjectsOf(repo: Repo): map<Digest, Content> {
    repo.store.objects.GetOr(map[])
  }
}
