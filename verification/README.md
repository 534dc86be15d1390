# forge repository model

A Dafny model of the repository state machine of `forge`, a minimal
version-control tool. The repository folder `.forge` holds
`objects/<digest>` (file texts stored under their SHA-1 digest),
`commits/<digest>` (JSON snapshot records) and `index` (a JSON map from
path to digest). The working directory and a remote directory complete the
state. Each command is a pure function from that state, plus its inputs,
to a new state or to the reason it wrote nothing:

- `add FILE...` stores each file's text under its digest and points the
  index entry for the path, exactly as typed, at that digest;
- `commit MESSAGE` refuses an empty index, otherwise stores a record
  `{timestamp, message, files}` (files = a copy of the index) under the
  digest of its serialisation;
- `push DIR` replaces each remote folder wholesale by the local one, when
  the local one exists;
- `pull DIR` copies in only the remote items whose names are new locally;
- `back MESSAGE` picks, among all commits whose message contains MESSAGE
  ignoring case, the one with the greatest `(time, digest)` pair, writes
  back each of its files whose object exists, and replaces the index with
  its file list;
- `log` lists all commit digests in descending string order.

SHA-1 and the JSON encoding are function parameters (`hash`,
`serialise`) about which nothing is assumed, not even injectivity, except
that `serialise` sees a record whose file list is an unordered map (see
"Left out"); so are
the clock reading `now` of `commit`, and the timestamp parser `parse` and
file modification times `mtime` that `back` falls back on.

Modules: `Wrappers` (Option, Result), `Ordering` (Python string order,
tuple order, maximum and descending sort), `Text` (case-insensitive
substring test), `RepoState` (the state, the errors, index load/save,
the repository guard), `Staging` (`add`), `Snapshots` (`commit`), `Sync`
(`push`, `pull`), `Rollback` (`back`), `History` (`log`), and
`Consistency` (a whole-repository invariant and which commands keep it).

A `Failure` always means the command wrote no file: each failing path in
the source either exits, returns early, or raises before its first write.
`log` writes no file either, though it may print part of its listing
before it raises (see "Left out").

The model follows the code as written: records carry no parent link, so
`log` sorts the commit digests and `back` scans every commit file; index
keys are the paths exactly as typed; `add` stores the files it is given,
one by one; the commit digest is taken over the single-line (unindented) JSON text while
the file is written indented, so a commit file's name is not the digest
of its own bytes; and `back` breaks time ties by the larger digest (tuple
comparison), which is deterministic.

## Model

| member | source | states |
|---|---|---|
| RepoState.EnsureRepo | src/forge/forge.py:50-53 | fails with `NotARepository` exactly when the repository folder is missing, and otherwise yields that repository |
| RepoState.LoadIndex | src/forge/forge.py:58-62 | a saved index is returned as saved; a missing index file reads as the empty index |
| RepoState.SaveIndex | src/forge/forge.py:64-66 | saving replaces the whole index: loading afterwards gives back exactly the saved map, and the object and commit folders are untouched |
| Staging.StageEffect | src/forge/forge.py:94-100 | after the loop over the files, each path is indexed under the digest of its text, each added digest holds an object that hashes to it (the file's own text unless another file of the batch collides), and every other index entry and object is unchanged |
| Staging.Add | src/forge/forge.py:87-101 | a nonexistent path is rejected before anything runs; with every path present, a missing repository fails exactly then, a missing objects folder fails exactly when there is a file to store, and in every other case `add` succeeds; on success the objects become the old objects overridden by the batch's texts under their digests (a later file of the batch wins a collision) and the index the old index overridden by each path's digest, the index is saved even for no file, and commits, working files and remote are unchanged |
| Staging.StageClosedForm | src/forge/forge.py:94-100 | the file-by-file loop equals two map overrides: objects plus the batch's objects (later files win), index plus the batch's entries |
| Staging.AddIdempotent | src/forge/forge.py:93-101 | running the same `add` a second time gives exactly the state after the first |
| Staging.AddUnchangedIsNoOp | src/forge/forge.py:95-100 | adding files whose current text is already indexed and stored leaves the whole state unchanged |
| Snapshots.Commit | src/forge/forge.py:106-121 | an empty or missing index fails with `NothingToCommit` and a missing commits folder fails; otherwise exactly one commit is added or rewritten, under `hash(serialise(record))`, whose files are the index, whose message and timestamp are the inputs; index, objects, other commits, working files and remote are unchanged |
| Sync.Push | src/forge/forge.py:145-166 | each remote folder becomes exactly the local folder when that exists (stale remote items gone) and stays as it was otherwise; the remote directory exists afterwards; nothing local changes |
| Sync.PushIdempotent | src/forge/forge.py:156-166 | pushing twice gives the state of pushing once |
| Sync.Additive | src/forge/forge.py:191-196 | the merged folder has the union of names, every local item keeps its value, and each new name gets the remote value |
| Sync.Pull | src/forge/forge.py:172-196 | a nonexistent remote directory is rejected first; a folder missing on the remote is skipped; otherwise each local folder is created if needed and extended additively; index, working files and remote are unchanged |
| Sync.PullIdempotent | src/forge/forge.py:180-196 | pulling twice gives the state of pulling once |
| Sync.PullAfterPush | src/forge/forge.py:156-196 | with both local folders present, pulling from a remote just pushed to changes nothing |
| Rollback.MatchesEmpty | src/forge/forge.py:209-223 | the list of matches is empty exactly when no commit's message contains the argument, ignoring case |
| Rollback.Back | src/forge/forge.py:202-242 | no repository, a missing commits folder, and no matching message are the three failures, each exactly characterised; on success the reported commit is the matching one whose key is greatest, index becomes its file list even where objects are missing, each listed file whose object exists is overwritten with it, all other working files keep their content, and objects, commits and remote are unchanged |
| Rollback.NewestMatchUnique | src/forge/forge.py:225-227 | at most one commit is the newest match, so the choice does not depend on directory listing order |
| Rollback.TieGoesToLargerDigest | src/forge/forge.py:213-227 | of two matching commits with the same time, the one with the smaller digest is never chosen |
| Rollback.EmptyNeedleTakesNewest | src/forge/forge.py:209-227 | `back ""` succeeds whenever there is a commit, and chooses the one whose key is greatest overall |
| Rollback.MtimeOnlyBreaksUnparsed | src/forge/forge.py:214-218 | the file modification time matters only for matching commits whose timestamp is missing or does not parse: readings that agree on those give the same outcome |
| Rollback.BackIdempotent | src/forge/forge.py:209-242 | going back twice by the same message gives the state of going back once |
| Ordering.LexTotal | src/forge/forge.py:226 | two different strings are always ordered one way or the other |
| Ordering.LexTransitive | src/forge/forge.py:226 | the string order used to break ties is transitive |
| Ordering.Greatest | src/forge/forge.py:226-227 | the first element after a descending sort of the match keys is a key of the set above every other key |
| Ordering.Descending | src/forge/forge.py:256 | the sorted listing holds each element of the set exactly once, greatest first |
| Ordering.DescendingUnique | src/forge/forge.py:256 | two strictly descending listings of the same elements are equal, so the listing order is unique |
| History.Log | src/forge/forge.py:246-259 | a missing commits folder and a record lacking `timestamp` or `message` fail; otherwise every commit digest is listed once, in strictly descending string order, and no commit gives the empty listing |
| Text.MatchesTrivially | src/forge/forge.py:213 | the empty argument matches every message, and each message matches itself |
| Consistency.AddKeepsConsistent | src/forge/forge.py:93-101 | `add` keeps objects content-addressed and the index naming only stored objects |
| Consistency.CommitKeepsConsistent | src/forge/forge.py:110-121 | `commit` keeps commits stored under their digest and their file lists naming only stored objects |
| Consistency.BackKeepsConsistent | src/forge/forge.py:229-242 | in a consistent repository the index that `back` installs names only stored objects |
| Consistency.PullKeepsConsistent | src/forge/forge.py:180-196 | pulling a sound remote into a consistent repository keeps it consistent |
| Consistency.PushKeepsRemoteSound | src/forge/forge.py:156-166 | pushing a consistent repository whose two folders exist leaves a sound remote |
| Consistency.BackRestoresSnapshot | src/forge/forge.py:229-242 | after `back` in a consistent repository every indexed file holds the object its entry names, so it hashes to that entry |
| Consistency.CommitThenBack | src/forge/forge.py:106-242 | after `commit MESSAGE`, `back MESSAGE` chooses the new commit when no other match sorts above it, restores the committed index, and in a consistent repository writes each committed file back with the staged digest |

## Left out

- `init` (src/forge/forge.py:76-85): it only creates the folders; the model starts from any state, including ones with missing folders.
- `status` (src/forge/forge.py:126-141): it only prints the index.
- The command-line wiring, coloured output and the exit code of `ensure_repo`: presentation and process control; the exit is the `NotARepository` failure.
- SHA-1 and JSON encoding: foreign library calls, given as the parameters `hash` and `serialise`; `_hash_file` is `hash` itself.
- `datetime.now`, `strptime` and `os.path.getmtime`: clock and library calls, given as the parameters `now`, `parse` and `mtime`; times are integers.
- Text.LowerChar: lower-cases ASCII and Latin-1 capitals only; the rest of Unicode case mapping (`str.lower`) is not modelled.
- Staging.Add: a directory argument passes the command-line check but makes `open` raise mid-loop, after earlier objects were written and before the index is saved; the working map holds only files, so this partial write is not modelled.
- Reading files in text mode: undecodable (binary) files raise in the source; contents are strings here.
- A commit file that is not valid JSON makes `back` and `log` raise, and a `message` that is not a string makes `back` raise (`log` formats any value); records here always decode, with each key possibly missing and the message always a string.
- History.Log: the source prints the header and every record sorted above the first one lacking `timestamp` or `message` before the lookup raises; the model returns only `MalformedRecord` and does not describe that partial listing.
- Snapshots.Commit: `json.dumps` keeps the insertion order of the index, which `add` extends and `back` replaces, so two equal indexes built in different orders serialise differently and give two commits; the model's index is an unordered map, so `serialise` yields one text and such a commit rewrites a single record instead.
- Rollback.Back: paths are taken as canonical names of files outside `.forge` and the remote directory; the source resolves them through the filesystem, so `a.txt` and `./a.txt` name one file, and a restored path inside `.forge/objects` would overwrite an object, whereas the model keeps the store unchanged. Object names are taken as plain file names inside `objects`: an absolute name, or `""`, `.` or `..`, resolves elsewhere in the source (copying an outside file, or making `open` raise). A listed path that is a directory makes `open` raise mid-loop, after earlier files were restored and before the index is saved; the working map holds only files, so this partial restore is not modelled, as for `Staging.Add`. The same path assumptions hold for `add` of a repository file, and the remote directory of `push` and `pull` is taken to be neither `.forge` nor inside it (`push .forge` deletes the local objects folder before `copytree` raises). The working map is flat: a listed path below an existing regular file (`d/x` while `d` is a file) makes `open` raise mid-loop, after earlier files were restored and before the index is saved, which is not modelled either; and a remote path that exists is taken to be a directory (`push` to an existing regular file raises in `copytree`).
- Directory creation for restored files, `rmtree`, `copytree` and `copy2`: filesystem plumbing, represented only by their effect on the maps; file metadata that `copy2` preserves is covered by `mtime` being arbitrary.
- Concurrent invocations racing on the index file: out of scope for a sequential model.
