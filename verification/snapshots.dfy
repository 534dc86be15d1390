/**
 * `forge commit MESSAGE`: freezes a copy of the index into a record stored
 * under the digest of the record's serialisation.
 */
module Snapshots {
  import opened Wrappers
  import opened RepoState

  /** The record `commit` builds: clock reading, message and the whole index. */
  function Snapshot(now: string, message: string, index: Index): Record {
    Record(Some(now), Some(message), Some(index))
  }

  /**
   * `forge commit MESSAGE`, at clock reading `now`. `serialise` stands for
   * the JSON encoding and `hash` for SHA-1. An empty (or missing) index is
   * refused; a missing commits folder makes the write raise. The index and
   * the objects are never touched.
   */
  function Commit(s: State, message: string, now: string,
                  hash: string -> Digest, serialise: Record -> string): (r: Result<Done, Error>)
    ensures r == Failure(NotARepository) <==> s.repo.None?
    ensures r == Failure(NothingToCommit) <==> s.repo.Some? && LoadIndex(s.repo.value) == map[]
    ensures r == Failure(MissingFolder) <==>
              s.repo.Some? && LoadIndex(s.repo.value) != map[] && s.repo.value.store.commits.None?
    ensures r.Failure? ==> r.error in {NotARepository, NothingToCommit, MissingFolder}
    ensures r.Success? ==>
              && s.repo.Some? && r.value.state.repo.Some?
              && r.value.state.working == s.working && r.value.state.remote == s.remote
              && var before, after, d := s.repo.value, r.value.state.repo.value, r.value.snapshot;
              && after.index == before.index
              && after.store.objects == before.store.objects
              && before.store.commits.Some? && after.store.commits.Some?
              && var prior, later := before.store.commits.value, after.store.commits.value;
              && later.Keys == prior.Keys + {d}
              && later[d].files == Some(LoadIndex(before)) && LoadIndex(before) != map[]
              && later[d].message == Some(message)
              && later[d].timestamp == Some(now)
              && hash(serialise(later[d])) == d
              && (forall e | e in prior && e != d :: later[e] == prior[e])
  {
    var repo :- EnsureRepo(s);
    var index := LoadIndex(repo);
    if index == map[] then Failure(NothingToCommit)
    else
      var rec := Snapshot(now, message, index);
      var digest := hash(serialise(rec));
      if repo.store.commits.None? then Failure(MissingFolder)
      else
        var commits := repo.store.commits.value[digest := rec];
        Success(Done(s.(repo := Some(repo.(store := repo.store.(commits := Some(commits))))), digest))
  }
}
