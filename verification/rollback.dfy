/**
 * `forge back MESSAGE`: go back to the newest snapshot whose message
 * contains MESSAGE, ignoring case. `back` reads every commit file.
 */
module Rollback {
  import opened Wrappers
  import opened Ordering
  import opened Text
  import opened RepoState

  /**
   * The time `back` sorts a commit by: its `timestamp` as parsed by
   * `parse`, or, when the key is missing or does not parse, the
   * modification time `mtime` of the commit's file.
   */
  function Stamp(rec: Record, d: Digest, parse: string -> Option<int>, mtime: Digest -> int): int {
    if rec.timestamp.Some? && parse(rec.timestamp.value).Some? then parse(rec.timestamp.value).value
    else mtime(d)
  }

  /** `message.lower() in data.get('message', '').lower()` */
  predicate Selects(rec: Record, needle: string) {
    MatchesIgnoringCase(MessageOf(rec), needle)
  }

  /** The sort key of commit `d`: `(t, c_hash)`. */
  function KeyOf(commits: map<Digest, Record>, d: Digest, parse: string -> Option<int>, mtime: Digest -> int): Key
    requires d in commits
  {
    (Stamp(commits[d], d, parse, mtime), d)
  }

  /** The list `matches`, as the set of its keys. */
  function Matches(commits: map<Digest, Record>, needle: string,
                   parse: string -> Option<int>, mtime: Digest -> int): set<Key> {
    set d | d in commits && Selects(commits[d], needle) :: KeyOf(commits, d, parse, mtime)
  }

  /** `d` is a matching commit and every other matching commit sorts below it. */
  ghost predicate NewestMatch(commits: map<Digest, Record>, needle: string,
                              parse: string -> Option<int>, mtime: Digest -> int, d: Digest) {
    && d in commits && Selects(commits[d], needle)
    && forall e | e in commits && e != d && Selects(commits[e], needle) ::
         KeyLess(KeyOf(commits, e, parse, mtime), KeyOf(commits, d, parse, mtime))
  }

  /** The working files after writing back every file of `files` whose object exists. */
  function Restore(working: map<Path, Content>, files: Index, objects: map<Digest, Content>): map<Path, Content> {
    working + map p | p in files && files[p] in objects :: objects[files[p]]
  }

  /**
   * How the working files relate before and after restoring `files`: a
   * file whose object exists now holds that object; a file whose object is
   * missing, and a file the snapshot does not list, keeps its content. No
   * file is deleted.
   */
  ghost predicate Restored(working: map<Path, Content>, files: Index, objects: map<Digest, Content>,
                           working': map<Path, Content>) {
    && working'.Keys == working.Keys + (set p | p in files && files[p] in objects)
    && (forall p | p in files && files[p] in objects :: working'[p] == objects[files[p]])
    && (forall p | p in working && !(p in files && files[p] in objects) :: working'[p] == working[p])
  }

  /**
   * `forge back MESSAGE`, with `parse` standing for `strptime` on the
   * stored timestamp and `mtime` for the commit files' modification times.
   * A missing commits folder makes the scan raise. The objects and commits
   * are left alone; the index becomes the chosen snapshot's file list even
   * when some of its objects are missing.
   */
  ghost function Back(s: State, needle: string, parse: string -> Option<int>, mtime: Digest -> int): (r: Result<Done, Error>)
    ensures r == Failure(NotARepository) <==> s.repo.None?
    ensures r == Failure(MissingFolder) <==> s.repo.Some? && s.repo.value.store.commits.None?
    ensures r == Failure(NoMatchingSnapshot) <==>
              && s.repo.Some? && s.repo.value.store.commits.Some?
              && var commits := s.repo.value.store.commits.value;
              && forall d | d in commits :: !Selects(commits[d], needle)
    ensures r.Failure? ==> r.error in {NotARepository, MissingFolder, NoMatchingSnapshot}
    ensures r.Success? ==>
              && s.repo.Some? && s.repo.value.store.commits.Some? && r.value.state.repo.Some?
              && var before, after := s.repo.value, r.value.state.repo.value;
              && var commits, d := before.store.commits.value, r.value.snapshot;
              && NewestMatch(commits, needle, parse, mtime, d)
              && after.store == before.store
              && after.index == Some(FilesOf(commits[d]))
              && Restored(s.working, FilesOf(commits[d]), ObjectsOf(before), r.value.state.working)
              && r.value.state.remote == s.remote
  {
    var repo :- EnsureRepo(s);
    if repo.store.commits.None? then Failure(MissingFolder)
    else
      var commits := repo.store.commits.value;
      var matches := Matches(commits, needle, parse, mtime);
      MatchesEmpty(commits, needle, parse, mtime);
      if matches == {} then Failure(NoMatchingSnapshot)
      else
        var chosen := Greatest(matches).1;
        var files := FilesOf(commits[chosen]);
        var working := Restore(s.working, files, ObjectsOf(repo));
        Success(Done(s.(repo := Some(SaveIndex(repo, files)), working := working), chosen))
  }

  /** The list `matches` is empty exactly when no commit's message matches. */
  lemma MatchesEmpty(commits: map<Digest, Record>, needle: string,
                     parse: string -> Option<int>, mtime: Digest -> int)
    ensures Matches(commits, needle, parse, mtime) == {} <==> forall d | d in commits :: !Selects(commits[d], needle)
  {
    if exists d | d in commits :: Selects(commits[d], needle) {
      var d :| d in commits && Selects(commits[d], needle);
      assert KeyOf(commits, d, parse, mtime) in Matches(commits, needle, parse, mtime);
    }
  }

  /** At most one commit is the newest match: the choice does not depend on listing order. */
  lemma NewestMatchUnique(commits: map<Digest, Record>, needle: string,
                          parse: string -> Option<int>, mtime: Digest -> int, d: Digest, e: Digest)
    requires NewestMatch(commits, needle, parse, mtime, d)
    requires NewestMatch(commits, needle, parse, mtime, e)
    ensures d == e
  {
    if d != e {
      var kd, ke := KeyOf(commits, d, parse, mtime), KeyOf(commits, e, parse, mtime);
      assert KeyLess(ke, kd) && KeyLess(kd, ke);
      KeyTransitive(kd, ke, kd);
      KeyIrreflexive(kd);
    }
  }

  /** Between two matching commits with the same time, the one with the smaller digest is never chosen. */
  lemma TieGoesToLargerDigest(commits: map<Digest, Record>, needle: string,
                              parse: string -> Option<int>, mtime: Digest -> int, d: Digest, e: Digest)
    requires d in commits && e in commits
    requires Selects(commits[d], needle) && Selects(commits[e], needle)
    requires Stamp(commits[d], d, parse, mtime) == Stamp(commits[e], e, parse, mtime)
    requires LexLess(d, e)
    ensures !NewestMatch(commits, needle, parse, mtime, d)
  {
    LexAsymmetric(d, e);
  }

  /** An empty MESSAGE matches every commit: `back ""` goes to the newest snapshot of all. */
  lemma EmptyNeedleTakesNewest(s: State, parse: string -> Option<int>, mtime: Digest -> int)
    requires s.repo.Some? && s.repo.value.store.commits.Some? && s.repo.value.store.commits.value != map[]
    ensures Back(s, "", parse, mtime).Success?
    ensures var commits := s.repo.value.store.commits.value;
            forall e | e in commits && e != Back(s, "", parse, mtime).value.snapshot ::
              KeyLess(KeyOf(commits, e, parse, mtime), KeyOf(commits, Back(s, "", parse, mtime).value.snapshot, parse, mtime))
  {
    var commits := s.repo.value.store.commits.value;
    var d :| d in commits;
    MatchesTrivially(MessageOf(commits[d]));
    forall e | e in commits
      ensures Selects(commits[e], "")
    {
      MatchesTrivially(MessageOf(commits[e]));
    }
  }

  /** Going back twice to the same MESSAGE leaves the same state as going back once. */
  lemma BackIdempotent(s: State, needle: string, parse: string -> Option<int>, mtime: Digest -> int)
    requires Back(s, needle, parse, mtime).Success?
    ensures Back(Back(s, needle, parse, mtime).value.state, needle, parse, mtime) == Back(s, needle, parse, mtime)
  {
    var repo := s.repo.value;
    var commits := repo.store.commits.value;
    var files := FilesOf(commits[Back(s, needle, parse, mtime).value.snapshot]);
    var restored := map p | p in files && files[p] in ObjectsOf(repo) :: ObjectsOf(repo)[files[p]];
    assert (s.working + restored) + restored == s.working + restored;
  }

  /**
   * The modification time is only a fallback: two `mtime` readings that
   * agree on the matching commits without a parsable timestamp lead to the
   * same outcome.
   */
  lemma MtimeOnlyBreaksUnparsed(s: State, needle: string, parse: string -> Option<int>,
                                mtime: Digest -> int, mtime': Digest -> int)
    requires s.repo.Some? && s.repo.value.store.commits.Some?
    requires var commits := s.repo.value.store.commits.value;
             forall d | d in commits && Selects(commits[d], needle) ::
               (commits[d].timestamp.None? || parse(commits[d].timestamp.value).None?) ==> mtime(d) == mtime'(d)
    ensures Back(s, needle, parse, mtime) == Back(s, needle, parse, mtime')
  {
    var commits := s.repo.value.store.commits.value;
    assert Matches(commits, needle, parse, mtime) == Matches(commits, needle, parse, mtime');
  }
}
