/**
 * `forge add FILE...`: each file's text is stored under its digest in
 * `objects` and the index maps the path, as given, to that digest.
 */
module Staging {
  import opened Wrappers
  import opened RepoState

  /** The digests of the files of one `add`. */
  function Digests(working: map<Path, Content>, files: seq<Path>, hash: Content -> Digest): set<Digest> {
    set p | p in files && p in working :: hash(working[p])
  }

  /** No other file of the batch has different text under the same digest as `p`. */
  predicate Unshadowed(working: map<Path, Content>, files: seq<Path>, hash: Content -> Digest, p: Path)
    requires p in working
  {
    forall q | q in files && q in working :: hash(working[q]) == hash(working[p]) ==> working[q] == working[p]
  }

  /** The index half of one `add`: each path now names its file's digest; other entries stay. */
  ghost predicate IndexStaged(index: Index, index': Index, working: map<Path, Content>,
                              files: seq<Path>, hash: Content -> Digest)
    requires forall p | p in files :: p in working
  {
    && index'.Keys == index.Keys + (set p | p in files)
    && (forall p | p in files :: index'[p] == hash(working[p]))
    && (forall p | p in index && p !in files :: index'[p] == index[p])
  }

  /**
   * The objects half of one `add`: every added digest now has an object
   * that hashes to it, which is the file's own text unless another file of
   * the batch collides with it; other objects stay.
   */
  ghost predicate ObjectsStaged(objects: map<Digest, Content>, objects': map<Digest, Content>,
                                working: map<Path, Content>, files: seq<Path>, hash: Content -> Digest)
    requires forall p | p in files :: p in working
  {
    && objects'.Keys == objects.Keys + Digests(working, files, hash)
    && (forall d | d in objects && d !in Digests(working, files, hash) :: objects'[d] == objects[d])
    && (forall p | p in files :: hash(objects'[hash(working[p])]) == hash(working[p]))
    && (forall p | p in files && Unshadowed(working, files, hash, p) :: objects'[hash(working[p])] == working[p])
  }

  /** Both halves: how one `add` of `files` relates the maps before and after. */
  ghost predicate Staged(objects: map<Digest, Content>, index: Index,
                         objects': map<Digest, Content>, index': Index,
                         working: map<Path, Content>, files: seq<Path>, hash: Content -> Digest)
    requires forall p | p in files :: p in working
  {
    IndexStaged(index, index', working, files, hash) && ObjectsStaged(objects, objects', working, files, hash)
  }

  lemma IndexStep(index: Index, index': Index, working: map<Path, Content>,
                  files: seq<Path>, hash: Content -> Digest)
    requires files != [] && forall p | p in files :: p in working
    requires IndexStaged(index[files[0] := hash(working[files[0]])], index', working, files[1..], hash)
    ensures IndexStaged(index, index', working, files, hash)
  {
    assert files == [files[0]] + files[1..];
  }

  lemma ObjectsStep(objects: map<Digest, Content>, objects': map<Digest, Content>,
                    working: map<Path, Content>, files: seq<Path>, hash: Content -> Digest)
    requires files != [] && forall p | p in files :: p in working
    requires ObjectsStaged(objects[hash(working[files[0]]) := working[files[0]]], objects', working, files[1..], hash)
    ensures ObjectsStaged(objects, objects', working, files, hash)
  {
    var f, c, rest := files[0], working[files[0]], files[1..];
    assert files == [f] + rest;
    assert Digests(working, files, hash) == {hash(c)} + Digests(working, rest, hash);
    forall p | p in files
      ensures hash(objects'[hash(working[p])]) == hash(working[p])
    {
      if hash(working[p]) in Digests(working, rest, hash) {
        var q :| q in rest && q in working && hash(working[q]) == hash(working[p]);
      }
    }
    forall p | p in files && Unshadowed(working, files, hash, p)
      ensures objects'[hash(working[p])] == working[p]
    {
      if hash(working[p]) in Digests(working, rest, hash) {
        var q :| q in rest && q in working && hash(working[q]) == hash(working[p]);
        assert Unshadowed(working, rest, hash, q);
      }
    }
  }

  /** The loop of `add`: store each file's object, then index its path. */
  function Stage(objects: map<Digest, Content>, index: Index, working: map<Path, Content>,
                 files: seq<Path>, hash: Content -> Digest): (map<Digest, Content>, Index)
    requires forall p | p in files :: p in working
    decreases |files|
  {
    if files == [] then (objects, index)
    else
      var content := working[files[0]];
      Stage(objects[hash(content) := content], index[files[0] := hash(content)], working, files[1..], hash)
  }

  /** What the loop of `add` achieves, file after file. */
  lemma {:induction false} StageEffect(objects: map<Digest, Content>, index: Index, working: map<Path, Content>,
                                       files: seq<Path>, hash: Content -> Digest)
    requires forall p | p in files :: p in working
    ensures var r := Stage(objects, index, working, files, hash);
            Staged(objects, index, r.0, r.1, working, files, hash)
    decreases |files|
  {
    if files != [] {
      var content := working[files[0]];
      var digest := hash(content);
      StageEffect(objects[digest := content], index[files[0] := digest], working, files[1..], hash);
      var r := Stage(objects, index, working, files, hash);
      IndexStep(index, r.1, working, files, hash);
      ObjectsStep(objects, r.0, working, files, hash);
    }
  }

  /**
   * `forge add FILE...`. The command line rejects a path that does not
   * exist before anything runs; a missing objects folder makes the first
   * object write raise, so nothing is saved; `add` with no file still
   * saves the index.
   */
  function Add(s: State, files: seq<Path>, hash: Content -> Digest): (r: Result<State, Error>)
    ensures (exists p | p in files :: p !in s.working) <==> r == Failure(NoSuchPath)
    ensures r == Failure(NotARepository) <==> (forall p | p in files :: p in s.working) && s.repo.None?
    ensures r == Failure(MissingFolder) <==>
              && (forall p | p in files :: p in s.working)
              && s.repo.Some? && files != [] && s.repo.value.store.objects.None?
    ensures r.Failure? ==> r.error in {NoSuchPath, NotARepository, MissingFolder}
    ensures r.Success? <==>
              && (forall p | p in files :: p in s.working)
              && s.repo.Some? && (files == [] || s.repo.value.store.objects.Some?)
    ensures r.Success? ==>
              && (forall p | p in files :: p in s.working)
              && s.repo.Some? && r.value.repo.Some?
              && r.value.working == s.working && r.value.remote == s.remote
              && var before, after := s.repo.value, r.value.repo.value;
              && after.index.Some?
              && after.store.commits == before.store.commits
              && (files == [] ==> after.store.objects == before.store.objects)
              && (files != [] ==> after.store.objects.Some?)
              && Staged(ObjectsOf(before), LoadIndex(before), ObjectsOf(after), LoadIndex(after), s.working, files, hash)
              && ObjectsOf(after) == ObjectsOf(before) + Blobs(s.working, files, hash)
              && LoadIndex(after) == LoadIndex(before) + Entries(s.working, files, hash)
  {
    if exists p | p in files :: p !in s.working then Failure(NoSuchPath)
    else
      var repo :- EnsureRepo(s);
      if files != [] && repo.store.objects.None? then Failure(MissingFolder)
      else
        var staged := Stage(ObjectsOf(repo), LoadIndex(repo), s.working, files, hash);
        StageEffect(ObjectsOf(repo), LoadIndex(repo), s.working, files, hash);
        StageClosedForm(ObjectsOf(repo), LoadIndex(repo), s.working, files, hash);
        var objects := if files == [] then repo.store.objects else Some(staged.0);
        Success(s.(repo := Some(SaveIndex(repo.(store := repo.store.(objects := objects)), staged.1))))
  }

  /** The objects one `add` writes, as a map: a later file overwrites an earlier one. */
  function Blobs(working: map<Path, Content>, files: seq<Path>, hash: Content -> Digest): map<Digest, Content>
    requires forall p | p in files :: p in working
    decreases |files|
  {
    if files == [] then map[]
    else map[hash(working[files[0]]) := working[files[0]]] + Blobs(working, files[1..], hash)
  }

  /** The index entries one `add` writes, as a map. */
  function Entries(working: map<Path, Content>, files: seq<Path>, hash: Content -> Digest): Index {
    map p | p in files && p in working :: hash(working[p])
  }

  /** The file-by-file loop of `add` amounts to two map overrides. */
  lemma StageClosedForm(objects: map<Digest, Content>, index: Index, working: map<Path, Content>,
                        files: seq<Path>, hash: Content -> Digest)
    requires forall p | p in files :: p in working
    ensures Stage(objects, index, working, files, hash)
            == (objects + Blobs(working, files, hash), index + Entries(working, files, hash))
  {
    StageObjects(objects, index, working, files, hash);
    StageIndex(objects, index, working, files, hash);
  }

  lemma {:induction false} StageObjects(objects: map<Digest, Content>, index: Index, working: map<Path, Content>,
                                        files: seq<Path>, hash: Content -> Digest)
    requires forall p | p in files :: p in working
    ensures Stage(objects, index, working, files, hash).0 == objects + Blobs(working, files, hash)
    decreases |files|
  {
    if files != [] {
      var c := working[files[0]];
      var d := hash(c);
      StageObjects(objects[d := c], index[files[0] := d], working, files[1..], hash);
      assert objects[d := c] + Blobs(working, files[1..], hash) == objects + Blobs(working, files, hash);
    }
  }

  lemma {:induction false} StageIndex(objects: map<Digest, Content>, index: Index, working: map<Path, Content>,
                                      files: seq<Path>, hash: Content -> Digest)
    requires forall p | p in files :: p in working
    ensures Stage(objects, index, working, files, hash).1 == index + Entries(working, files, hash)
    decreases |files|
  {
    if files == [] {
      assert Entries(working, files, hash) == map[];
    } else {
      var c := working[files[0]];
      var d := hash(c);
      StageIndex(objects[d := c], index[files[0] := d], working, files[1..], hash);
      assert files == [files[0]] + files[1..];
      var rest := Entries(working, files[1..], hash);
      assert Entries(working, files, hash) == rest[files[0] := d];
      OverrideAfterUpdate(index, rest, files[0], d);
    }
  }

  lemma OverrideAfterUpdate<K, V>(m: map<K, V>, rest: map<K, V>, k: K, v: V)
    requires k in rest ==> rest[k] == v
    ensures m[k := v] + rest == m + rest[k := v]
  {
  }

  /** Running the same `add` again changes nothing. */
  lemma AddIdempotent(s: State, files: seq<Path>, hash: Content -> Digest)
    requires Add(s, files, hash).Success?
    ensures Add(Add(s, files, hash).value, files, hash) == Add(s, files, hash)
  {
    var repo := s.repo.value;
    var blobs, entries := Blobs(s.working, files, hash), Entries(s.working, files, hash);
    StageClosedForm(ObjectsOf(repo), LoadIndex(repo), s.working, files, hash);
    var s1 := Add(s, files, hash).value;
    var repo1 := s1.repo.value;
    assert files == [] ==> blobs == map[];
    assert ObjectsOf(repo1) == ObjectsOf(repo) + blobs;
    assert LoadIndex(repo1) == LoadIndex(repo) + entries;
    StageClosedForm(ObjectsOf(repo1), LoadIndex(repo1), s.working, files, hash);
    OverrideTwice(ObjectsOf(repo), blobs);
    OverrideTwice(LoadIndex(repo), entries);
    assert Stage(ObjectsOf(repo1), LoadIndex(repo1), s.working, files, hash) == (ObjectsOf(repo1), LoadIndex(repo1));
  }

  lemma OverrideTwice<K, V>(m: map<K, V>, n: map<K, V>)
    ensures (m + n) + n == m + n
  {
  }

  /**
   * Adding files whose current text is already indexed and stored changes
   * nothing (once the index file and the objects folder exist).
   */
  lemma AddUnchangedIsNoOp(s: State, files: seq<Path>, hash: Content -> Digest)
    requires s.repo.Some? && s.repo.value.index.Some? && s.repo.value.store.objects.Some?
    requires forall p | p in files :: p in s.working
    requires forall p | p in files :: p in LoadIndex(s.repo.value) && LoadIndex(s.repo.value)[p] == hash(s.working[p])
    requires forall p | p in files :: hash(s.working[p]) in ObjectsOf(s.repo.value)
                                     && ObjectsOf(s.repo.value)[hash(s.working[p])] == s.working[p]
    ensures Add(s, files, hash) == Success(s)
  {
    var repo := s.repo.value;
    StageClosedForm(ObjectsOf(repo), LoadIndex(repo), s.working, files, hash);
    BlobsAlreadyStored(ObjectsOf(repo), s.working, files, hash);
    assert LoadIndex(repo) + Entries(s.working, files, hash) == LoadIndex(repo);
  }

  lemma {:induction false} BlobsAlreadyStored(objects: map<Digest, Content>, working: map<Path, Content>,
                                              files: seq<Path>, hash: Content -> Digest)
    requires forall p | p in files :: p in working
    requires forall p | p in files :: hash(working[p]) in objects && objects[hash(working[p])] == working[p]
    ensures objects + Blobs(working, files, hash) == objects
    decreases |files|
  {
    if files != [] {
      BlobsAlreadyStored(objects, working, files[1..], hash);
      var d := hash(working[files[0]]);
      calc {
        objects + Blobs(working, files, hash);
        objects + (map[d := working[files[0]]] + Blobs(working, files[1..], hash));
        (objects + map[d := working[files[0]]]) + Blobs(working, files[1..], hash);
        { assert objects + map[d := working[files[0]]] == objects; }
        objects;
      }
    }
  }
}
