/**
 * `forge push DIR` and `forge pull DIR`: exchange the objects and commits
 * folders with a remote directory. Push replaces each remote folder
 * wholesale; pull only copies in items whose names are new locally. The
 * index is never exchanged.
 */
module Sync {
  import opened Wrappers
  import opened RepoState

  /** A remote directory that does not exist yet: `push` creates it empty. */
  const EmptyStore := Store(None, None)

  /** One folder after `push`: the local folder if there is one, else the remote folder as it was. */
  function Replace<V>(local: Option<map<Digest, V>>, remote: Option<map<Digest, V>>): Option<map<Digest, V>> {
    if local.Some? then local else remote
  }

  /** Items of `remote` copied into `local` unless an item of that name is already there. */
  function Additive<V>(local: map<Digest, V>, remote: map<Digest, V>): (r: map<Digest, V>)
    ensures r.Keys == local.Keys + remote.Keys
    ensures forall k | k in local :: r[k] == local[k]
    ensures forall k | k in remote && k !in local :: r[k] == remote[k]
  {
    remote + local
  }

  /** One folder after `pull`: skipped when the remote lacks it, otherwise created if needed and extended. */
  function Absorb<V>(local: Option<map<Digest, V>>, remote: Option<map<Digest, V>>): Option<map<Digest, V>> {
    if remote.None? then local else Some(Additive(local.GetOr(map[]), remote.value))
  }

  /**
   * How one folder relates before and after `pull`: unchanged when the
   * remote has no such folder; otherwise every local item survives as it
   * was, and exactly the remote items with new names are added.
   */
  ghost predicate Pulled<V>(local: Option<map<Digest, V>>, remote: Option<map<Digest, V>>, after: Option<map<Digest, V>>) {
    && (remote.None? ==> after == local)
    && (remote.Some? ==>
          && after.Some?
          && after.value.Keys == local.GetOr(map[]).Keys + remote.value.Keys
          && (forall k | k in local.GetOr(map[]) :: after.value[k] == local.GetOr(map[])[k])
          && (forall k | k in remote.value && k !in local.GetOr(map[]) :: after.value[k] == remote.value[k]))
  }

  /**
   * `forge push DIR`. The remote directory is created if missing; each
   * folder that exists locally replaces the remote one, stale remote-only
   * items included; a folder missing locally leaves the remote one alone.
   * Nothing local changes.
   */
  function Push(s: State): (r: Result<State, Error>)
    ensures r == Failure(NotARepository) <==> s.repo.None?
    ensures r.Failure? ==> r.error == NotARepository
    ensures r.Success? ==>
              && s.repo.Some?
              && r.value.repo == s.repo && r.value.working == s.working
              && r.value.remote.Some?
              && var local, before, after := s.repo.value.store, s.remote.GetOr(EmptyStore), r.value.remote.value;
              && (local.objects.Some? ==> after.objects == local.objects)
              && (local.objects.None? ==> after.objects == before.objects)
              && (local.commits.Some? ==> after.commits == local.commits)
              && (local.commits.None? ==> after.commits == before.commits)
  {
    var repo :- EnsureRepo(s);
    var remote := s.remote.GetOr(EmptyStore);
    var pushed := Store(Replace(repo.store.objects, remote.objects), Replace(repo.store.commits, remote.commits));
    Success(s.(remote := Some(pushed)))
  }

  /**
   * `forge pull DIR`. The command line rejects a remote directory that
   * does not exist before anything runs. Each remote folder is merged
   * into the local one without overwriting or deleting anything.
   */
  function Pull(s: State): (r: Result<State, Error>)
    ensures r == Failure(NoSuchPath) <==> s.remote.None?
    ensures r == Failure(NotARepository) <==> s.remote.Some? && s.repo.None?
    ensures r.Failure? ==> r.error in {NoSuchPath, NotARepository}
    ensures r.Success? ==>
              && s.repo.Some? && s.remote.Some? && r.value.repo.Some?
              && r.value.remote == s.remote && r.value.working == s.working
              && var before, after, remote := s.repo.value, r.value.repo.value, s.remote.value;
              && after.index == before.index
              && Pulled(before.store.objects, remote.objects, after.store.objects)
              && Pulled(before.store.commits, remote.commits, after.store.commits)
  {
    if s.remote.None? then Failure(NoSuchPath)
    else
      var repo :- EnsureRepo(s);
      var remote := s.remote.value;
      var merged := Store(Absorb(repo.store.objects, remote.objects), Absorb(repo.store.commits, remote.commits));
      Success(s.(repo := Some(repo.(store := merged))))
  }

  /** Pulling twice leaves the same state as pulling once. */
  lemma PullIdempotent(s: State)
    requires Pull(s).Success?
    ensures Pull(Pull(s).value) == Pull(s)
  {
    var remote := s.remote.value;
    AbsorbTwice(s.repo.value.store.objects, remote.objects);
    AbsorbTwice(s.repo.value.store.commits, remote.commits);
  }

  lemma AbsorbTwice<V>(local: Option<map<Digest, V>>, remote: Option<map<Digest, V>>)
    ensures Absorb(Absorb(local, remote), remote) == Absorb(local, remote)
  {
    if remote.Some? {
      var once := Additive(local.GetOr(map[]), remote.value);
      assert Additive(once, remote.value) == once;
    }
  }

  /** Pushing twice leaves the same state as pushing once. */
  lemma PushIdempotent(s: State)
    requires Push(s).Success?
    ensures Push(Push(s).value) == Push(s)
  {
  }

  /**
   * Pulling from a remote just pushed to changes nothing locally, once both
   * local folders exist: the remote then holds exactly the local items.
   */
  lemma PullAfterPush(s: State)
    requires Push(s).Success?
    requires s.repo.value.store.objects.Some? && s.repo.value.store.commits.Some?
    ensures Pull(Push(s).value) == Push(s)
  {
    var local := s.repo.value.store;
    SelfAdditive(local.objects.value);
    SelfAdditive(local.commits.value);
  }

  lemma SelfAdditive<V>(m: map<Digest, V>)
    ensures Additive(m, m) == m
  {
  }
}
