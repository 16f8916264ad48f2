/** Jobs and index file names (crates/aide-mcp/src/indexer/worker.rs, `slugify_repo_root` of
    crates/aide-core/src/paths.rs). */
module IndexerJobs {
  import opened Wrappers
  import opened IndexerStore

  /** A job carries the caller's spelling of the repository root, with or without a final `/`. */
  datatype Job = Job(root: string, sha: string)

  const QUEUE_CAP: nat := 64

  function IdOf(job: Job): Id {
    Id(RepoKey(job.root), job.sha)
  }

  function TrimLeadingSlashes(root: string): string {
    if root != "" && root[0] == '/' then TrimLeadingSlashes(root[1..]) else root
  }

  function SlugChar(c: char): char {
    if c == '/' || c == ':' || c == '\\' || c == ' ' then '_' else c
  }

  function Slugify(root: string): (slug: string)
    ensures forall i :: 0 <= i < |slug| ==> slug[i] != '/'
  {
    var rest := TrimLeadingSlashes(root);
    seq(|rest|, i requires 0 <= i < |rest| => SlugChar(rest[i]))
  }

  function IndexFilePath(job: Job): IndexPath {
    IndexPath(Slugify(job.root), job.sha)
  }

  /** The slugs under which files of one repository can appear: the two spellings of its root. */
  function Slugs(key: string): set<string> {
    {Slugify(key)} + (if key == "" then {} else {Slugify(key[..|key| - 1])})
  }

  predicate Owns(id: Id, p: IndexPath) {
    p.sha == id.sha && p.slug in Slugs(id.key)
  }

  lemma JobOwnsItsPath(job: Job)
    ensures Owns(IdOf(job), IndexFilePath(job))
  {
    var key := RepoKey(job.root);
    if key != job.root {
      assert key[..|key| - 1] == job.root;
    }
  }

  /** No two of these repositories can produce the same index directory. */
  ghost predicate SlugsSeparate(keys: iset<string>) {
    forall a, b :: a in keys && b in keys && a != b ==> Slugs(a) !! Slugs(b)
  }

  lemma OwnerIsUnique(keys: iset<string>, a: Id, b: Id, p: IndexPath)
    requires SlugsSeparate(keys) && a.key in keys && b.key in keys
    requires Owns(a, p) && Owns(b, p)
    ensures a == b
  {
  }

  // ------------------------------------------- when two roots share a directory

  const SEPARATORS: set<char> := {'/', ':', '\\', ' ', '_'}

  /** Equal but for separators, of which any may stand for any other. */
  predicate Alike(a: string, b: string) {
    |a| == |b| && forall i :: 0 <= i < |a| ==> a[i] == b[i] || (a[i] in SEPARATORS && b[i] in SEPARATORS)
  }

  /** Exactly when two roots get the same directory. */
  lemma SlugsCollideIff(a: string, b: string)
    ensures Slugify(a) == Slugify(b) <==> Alike(TrimLeadingSlashes(a), TrimLeadingSlashes(b))
  {
    var x, y := TrimLeadingSlashes(a), TrimLeadingSlashes(b);
    if Slugify(a) == Slugify(b) {
      forall i | 0 <= i < |x| ensures x[i] == y[i] || (x[i] in SEPARATORS && y[i] in SEPARATORS) {
        assert Slugify(a)[i] == SlugChar(x[i]) && Slugify(b)[i] == SlugChar(y[i]);
      }
    }
  }

  /** The two ways in which callers write the root of one repository. */
  function Spellings(key: string): set<string> {
    {key} + (if key == "" then {} else {key[..|key| - 1]})
  }

  predicate SharesDirectory(a: string, b: string) {
    exists x, y :: x in Spellings(a) && y in Spellings(b) && Alike(TrimLeadingSlashes(x), TrimLeadingSlashes(y))
  }

  /** What has to be checked of the repositories in use: no spelling of one is like a spelling of
      another. */
  lemma SlugsSeparateIff(keys: iset<string>)
    ensures SlugsSeparate(keys) <==>
            forall a, b :: a in keys && b in keys && a != b ==> !SharesDirectory(a, b)
  {
    forall a, b ensures Slugs(a) !! Slugs(b) <==> !SharesDirectory(a, b) {
      SlugsDisjointIff(a, b);
    }
  }

  lemma SlugsDisjointIff(a: string, b: string)
    ensures Slugs(a) !! Slugs(b) <==> !SharesDirectory(a, b)
  {
    forall x, y | x in Spellings(a) && y in Spellings(b)
      ensures Slugify(x) in Slugs(a) && Slugify(y) in Slugs(b)
      ensures Alike(TrimLeadingSlashes(x), TrimLeadingSlashes(y)) <==> Slugify(x) == Slugify(y)
    {
      SlugsCollideIff(x, y);
    }
    if slug :| slug in Slugs(a) && slug in Slugs(b) {
      var x :| x in Spellings(a) && Slugify(x) == slug;
      var y :| y in Spellings(b) && Slugify(y) == slug;
      assert Alike(TrimLeadingSlashes(x), TrimLeadingSlashes(y));
    }
  }

  /** The claim that distinct roots never share a directory fails: two different repositories
      whose roots differ in a space and an underscore are given the same index file, and so are two
      whose names differ in an underscore at the end, one of them written with its final `/`. */
  lemma SlugCollision(sha: string)
    ensures RepoKey("/a b") != RepoKey("/a_b")
    ensures IndexFilePath(Job("/a b", sha)) == IndexFilePath(Job("/a_b", sha))
    ensures RepoKey("/a/") != RepoKey("/a_")
    ensures IndexFilePath(Job("/a/", sha)) == IndexFilePath(Job("/a_", sha))
  {
    assert TrimLeadingSlashes("/a b") == "a b" && TrimLeadingSlashes("/a_b") == "a_b";
    SlugsCollideIff("/a b", "/a_b");
    assert RepoKey("/a b")[2] != RepoKey("/a_b")[2];
    assert TrimLeadingSlashes("/a/") == "a/" && TrimLeadingSlashes("/a_") == "a_";
    SlugsCollideIff("/a/", "/a_");
    assert RepoKey("/a/")[2] != RepoKey("/a_")[2];
  }
}
