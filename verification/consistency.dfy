/**
 * A repository is consistent when its folders are content-addressed and
 * nothing it references is missing: every object is stored under the
 * digest of its text, every commit under the digest of its serialisation,
 * and every digest in the index or in a commit's file list names an
 * object. `add`, `commit`, `back` and `pull` (from a consistent remote)
 * preserve this; so does `push` for the remote, when both local folders
 * exist.
 */
module Consistency {
  import opened Wrappers
  import opened Ordering
  import opened Text
  import opened RepoState
  import opened Staging
  import opened Snapshots
  import opened Sync
  import opened Rollback

  /** Every file list of the commits names only objects that exist. */
  ghost predicate CommitsClosed(commits: map<Digest, Record>, objects: map<Digest, Content>) {
    forall d, p | d in commits && p in FilesOf(commits[d]) :: FilesOf(commits[d])[p] in objects
  }

  /** A store (local or remote) whose two folders are content-addressed and closed. */
  ghost predicate Sound(store: Store, hash: string -> Digest, serialise: Record -> string) {
    var objects, commits := store.objects.GetOr(map[]), store.commits.GetOr(map[]);
    && (forall d | d in objects :: hash(objects[d]) == d)
    && (forall d | d in commits :: hash(serialise(commits[d])) == d)
    && CommitsClosed(commits, objects)
  }

  /** A sound store whose index names only objects that exist. */
  ghost predicate Consistent(repo: Repo, hash: string -> Digest, serialise: Record -> string) {
    && Sound(repo.store, hash, serialise)
    && forall p | p in LoadIndex(repo) :: LoadIndex(repo)[p] in ObjectsOf(repo)
  }

  lemma AddKeepsConsistent(s: State, files: seq<Path>, hash: string -> Digest, serialise: Record -> string)
    requires s.repo.Some? && Consistent(s.repo.value, hash, serialise)
    requires Add(s, files, hash).Success?
    ensures Consistent(Add(s, files, hash).value.repo.value, hash, serialise)
  {
    var before, after := s.repo.value, Add(s, files, hash).value.repo.value;
    var added := Digests(s.working, files, hash);
    var objects := ObjectsOf(after);
    forall d | d in objects
      ensures hash(objects[d]) == d
    {
      if d in added {
        var p :| p in files && p in s.working && hash(s.working[p]) == d;
      }
    }
    forall p | p in LoadIndex(after)
      ensures LoadIndex(after)[p] in objects
    {
      if p in files {
        assert hash(s.working[p]) in added;
      }
    }
  }

  lemma CommitKeepsConsistent(s: State, message: string, now: string,
                              hash: string -> Digest, serialise: Record -> string)
    requires s.repo.Some? && Consistent(s.repo.value, hash, serialise)
    requires Commit(s, message, now, hash, serialise).Success?
    ensures Consistent(Commit(s, message, now, hash, serialise).value.state.repo.value, hash, serialise)
  {
  }

  lemma BackKeepsConsistent(s: State, needle: string, parse: string -> Option<int>, mtime: Digest -> int,
                            hash: string -> Digest, serialise: Record -> string)
    requires s.repo.Some? && Consistent(s.repo.value, hash, serialise)
    ensures Back(s, needle, parse, mtime).Success? ==>
              Consistent(Back(s, needle, parse, mtime).value.state.repo.value, hash, serialise)
  {
  }

  lemma PullKeepsConsistent(s: State, hash: string -> Digest, serialise: Record -> string)
    requires s.repo.Some? && Consistent(s.repo.value, hash, serialise)
    requires s.remote.Some? && Sound(s.remote.value, hash, serialise)
    ensures Pull(s).Success?
    ensures Consistent(Pull(s).value.repo.value, hash, serialise)
  {
    var before, after := s.repo.value, Pull(s).value.repo.value;
    assert ObjectsOf(before).Keys <= ObjectsOf(after).Keys;
    assert LoadIndex(after) == LoadIndex(before);
    forall p | p in LoadIndex(after)
      ensures LoadIndex(after)[p] in ObjectsOf(after)
    {
      assert LoadIndex(before)[p] in ObjectsOf(before);
    }
  }

  lemma PushKeepsRemoteSound(s: State, hash: string -> Digest, serialise: Record -> string)
    requires s.repo.Some? && Consistent(s.repo.value, hash, serialise)
    requires s.repo.value.store.objects.Some? && s.repo.value.store.commits.Some?
    ensures Push(s).Success?
    ensures Sound(Push(s).value.remote.value, hash, serialise)
  {
  }

  /**
   * After `back` in a consistent repository every indexed file holds the
   * object the index names, so it hashes to its index entry: the working
   * files agree with the snapshot gone back to.
   */
  lemma BackRestoresSnapshot(s: State, needle: string, parse: string -> Option<int>, mtime: Digest -> int,
                             hash: string -> Digest, serialise: Record -> string)
    requires s.repo.Some? && Consistent(s.repo.value, hash, serialise)
    ensures Back(s, needle, parse, mtime).Success? ==>
            var after := Back(s, needle, parse, mtime).value.state;
            var index := LoadIndex(after.repo.value);
            forall p | p in index ::
              && p in after.working
              && after.working[p] == ObjectsOf(after.repo.value)[index[p]]
              && hash(after.working[p]) == index[p]
  {
  }

  /**
   * Commit, then go back by the same message: when no other matching
   * commit sorts above the new one, `back` chooses it, restores the index
   * that was committed, and (in a consistent repository) writes every
   * committed file back as it was staged.
   */
  lemma CommitThenBack(s: State, message: string, now: string,
                       hash: string -> Digest, serialise: Record -> string,
                       parse: string -> Option<int>, mtime: Digest -> int)
    requires Commit(s, message, now, hash, serialise).Success?
    requires var done := Commit(s, message, now, hash, serialise).value;
             var commits := done.state.repo.value.store.commits.value;
             forall e | e in commits && e != done.snapshot && Selects(commits[e], message) ::
               KeyLess(KeyOf(commits, e, parse, mtime), KeyOf(commits, done.snapshot, parse, mtime))
    ensures var done := Commit(s, message, now, hash, serialise).value;
            var back := Back(done.state, message, parse, mtime);
            && back.Success?
            && back.value.snapshot == done.snapshot
            && back.value.state.repo.value.index == Some(LoadIndex(s.repo.value))
            && (Consistent(s.repo.value, hash, serialise) ==>
                  forall p | p in LoadIndex(s.repo.value) ::
                    p in back.value.state.working
                    && hash(back.value.state.working[p]) == LoadIndex(s.repo.value)[p])
  {
    var done := Commit(s, message, now, hash, serialise).value;
    var commits := done.state.repo.value.store.commits.value;
    MatchesTrivially(message);
    assert Selects(commits[done.snapshot], message);
    var back := Back(done.state, message, parse, mtime);
    NewestMatchUnique(commits, message, parse, mtime, back.value.snapshot, done.snapshot);
    if Consistent(s.repo.value, hash, serialise) {
      CommitKeepsConsistent(s, message, now, hash, serialise);
      BackRestoresSnapshot(done.state, message, parse, mtime, hash, serialise);
    }
  }
}
