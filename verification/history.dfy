/**
 * `forge log`: lists every commit file, digests in descending string
 * order, with the timestamp and message read from each record.
 */
module History {
  import opened Wrappers
  import opened Ordering
  import opened RepoState

  /** A record `log` can print: it reads `data['timestamp']` and `data['message']` without a default. */
  predicate Printable(rec: Record) {
    rec.timestamp.Some? && rec.message.Some?
  }

  /**
   * `forge log`: the digests of all commits, greatest first, each exactly
   * once. A missing commits folder makes the listing raise, and so does a
   * record without a timestamp or message. No commit gives the empty
   * listing.
   */
  ghost function Log(s: State): (r: Result<seq<Digest>, Error>)
    ensures r == Failure(NotARepository) <==> s.repo.None?
    ensures r == Failure(MissingFolder) <==> s.repo.Some? && s.repo.value.store.commits.None?
    ensures r == Failure(MalformedRecord) <==>
              && s.repo.Some? && s.repo.value.store.commits.Some?
              && var commits := s.repo.value.store.commits.value;
              && exists d | d in commits :: !Printable(commits[d])
    ensures r.Failure? ==> r.error in {NotARepository, MissingFolder, MalformedRecord}
    ensures r.Success? ==>
              && s.repo.Some? && s.repo.value.store.commits.Some?
              && var commits := s.repo.value.store.commits.value;
              && |r.value| == |commits|
              && (forall d | d in commits :: d in r.value)
              && (forall i | 0 <= i < |r.value| :: r.value[i] in commits)
              && StrictlyDescending(r.value)
  {
    var repo :- EnsureRepo(s);
    if repo.store.commits.None? then Failure(MissingFolder)
    else
      var commits := repo.store.commits.value;
      if exists d | d in commits :: !Printable(commits[d]) then Failure(MalformedRecord)
      else Success(Descending(commits.Keys))
  }
}
