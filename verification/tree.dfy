/**
 * The directory walk as a specification: a filesystem tree, the paths a walk
 * collects from it, and what that collection is in terms of where files lie.
 */
module FileTree {
  import opened Wrappers
  import opened Matcher

  /**
   * A path as the walk finds it. `Other` is anything that is neither a
   * regular file nor a directory (a missing path, a device, a socket).
   */
  datatype Node =
    | File(path: string, text: FileText)
    | Dir(path: string, listing: Listing)
    | Other

  /** What listing a directory yields: nothing when it could not be read. */
  datatype Listing = Unlistable | Listed(entries: seq<Entry>)

  /** One entry of a listing: `None` when the listing failed to yield it. */
  type Entry = Option<Node>

  /** The search settings every visit shares; `query` is already normalised. */
  datatype Options = Options(query: string, matchCase: bool, recursive: bool)

  /** A directory that can be listed. */
  predicate IsListedDir(n: Node)
  {
    n.Dir? && n.listing.Listed?
  }

  /** A directory met at `depth` is entered only in recursive mode or at the root. */
  predicate Descends(recursive: bool, depth: nat)
  {
    recursive || depth == 0
  }

  /** A file whose text holds the query, so that scanning it appends its path. */
  predicate Matching(f: Node, o: Options)
  {
    f.File? && FileMatches(f.text, o.query, o.matchCase)
  }

  // ---------------------------------------------------------------------------
  // What a walk appends
  // ---------------------------------------------------------------------------

  /** The paths a visit of `n` at `depth` appends, in the order a sequential walk appends them. */
  function Found(n: Node, depth: nat, o: Options): (r: seq<string>)
    ensures |r| <= |AllFiles(n)|
    decreases n, 1
  {
    match n
    case File(path, text) =>
      if FileMatches(text, o.query, o.matchCase) then [path] else []
    case Dir(_, listing) =>
      if Descends(o.recursive, depth) && listing.Listed? then FoundInFirst(n, |listing.entries|, depth + 1, o) else []
    case Other => []
  }

  /** The paths appended by visiting the first `j` entries of directory `dir`, each at `depth`. */
  function FoundInFirst(dir: Node, j: nat, depth: nat, o: Options): (r: seq<string>)
    requires IsListedDir(dir) && j <= |dir.listing.entries|
    ensures |r| <= |AllFilesInFirst(dir, j)|
    decreases dir, 0, j
  {
    if j == 0 then []
    else
      var e := dir.listing.entries[j - 1];
      FoundInFirst(dir, j - 1, depth, o) + (if e.Some? then Found(e.value, depth, o) else [])
  }

  /** The paths of every file in the tree, through every directory that can be listed. */
  function AllFiles(n: Node): seq<string>
    decreases n, 1
  {
    match n
    case File(path, _) => [path]
    case Dir(_, listing) => if listing.Listed? then AllFilesInFirst(n, |listing.entries|) else []
    case Other => []
  }

  /** The paths of every file under the first `j` entries of directory `dir`. */
  function AllFilesInFirst(dir: Node, j: nat): seq<string>
    requires IsListedDir(dir) && j <= |dir.listing.entries|
    decreases dir, 0, j
  {
    if j == 0 then []
    else
      var e := dir.listing.entries[j - 1];
      AllFilesInFirst(dir, j - 1) + (if e.Some? then AllFiles(e.value) else [])
  }

  // ---------------------------------------------------------------------------
  // Where files lie
  // ---------------------------------------------------------------------------

  /** `f` lies `k` levels below `n`, reached through directories that can be listed. */
  ghost predicate Reachable(n: Node, f: Node, k: nat)
    decreases n
  {
    if k == 0 then f == n
    else
      IsListedDir(n) &&
      exists i :: 0 <= i < |n.listing.entries| && n.listing.entries[i].Some? &&
        Reachable(n.listing.entries[i].value, f, k - 1)
  }

  /**
   * Whether something `k` levels below a node visited at `depth` is visited:
   * always in recursive mode; otherwise only the node itself and, when it is
   * the root, its immediate entries.
   */
  predicate Visible(recursive: bool, depth: nat, k: nat)
  {
    recursive || k == 0 || (k == 1 && depth == 0)
  }

  /** The path `p` of a matching file that lies at a visible level below `n`. */
  ghost predicate Collectable(n: Node, depth: nat, o: Options, p: string)
  {
    exists f: Node, k: nat :: Reachable(n, f, k) && Visible(o.recursive, depth, k) && Matching(f, o) && f.path == p
  }

  /** The same among the first `j` entries of `dir`, those entries visited at `depth`. */
  ghost predicate CollectableInFirst(dir: Node, j: nat, depth: nat, o: Options, p: string)
    requires IsListedDir(dir) && j <= |dir.listing.entries|
  {
    exists i :: 0 <= i < j && dir.listing.entries[i].Some? && Collectable(dir.listing.entries[i].value, depth, o, p)
  }

  /**
   * A path is appended by the visit of `n` at `depth` exactly when it is the
   * path of a matching file lying at a visible level below `n`.
   */
  lemma {:induction false} FoundIff(n: Node, depth: nat, o: Options, p: string)
    ensures p in Found(n, depth, o) <==> Collectable(n, depth, o, p)
    decreases n, 1
  {
    match n
    case File(path, text) =>
      if Collectable(n, depth, o, p) {
        var f: Node, k: nat :| Reachable(n, f, k) && Visible(o.recursive, depth, k) && Matching(f, o) && f.path == p;
        assert k == 0;
      }
      if p in Found(n, depth, o) {
        assert Reachable(n, n, 0);
      }
    case Dir(_, listing) =>
      if listing.Listed? {
        FoundInFirstIff(n, |listing.entries|, depth + 1, o, p);
      }
      CollectableInDir(n, depth, o, p);
    case Other =>
  }

  /**
   * What is collectable below a directory is what is collectable below its
   * entries, one level further down, provided the directory is entered.
   */
  lemma CollectableInDir(n: Node, depth: nat, o: Options, p: string)
    requires n.Dir?
    ensures Collectable(n, depth, o, p) <==>
            Descends(o.recursive, depth) && n.listing.Listed? &&
            CollectableInFirst(n, |n.listing.entries|, depth + 1, o, p)
  {
    if Collectable(n, depth, o, p) {
      var f: Node, k: nat :| Reachable(n, f, k) && Visible(o.recursive, depth, k) && Matching(f, o) && f.path == p;
      assert k > 0 && n.listing.Listed? && Descends(o.recursive, depth);
      var es := n.listing.entries;
      var i :| 0 <= i < |es| && es[i].Some? && Reachable(es[i].value, f, k - 1);
      assert Visible(o.recursive, depth + 1, k - 1);
      assert Collectable(es[i].value, depth + 1, o, p);
    }
    if Descends(o.recursive, depth) && n.listing.Listed? &&
       CollectableInFirst(n, |n.listing.entries|, depth + 1, o, p) {
      var es := n.listing.entries;
      var i :| 0 <= i < |es| && es[i].Some? && Collectable(es[i].value, depth + 1, o, p);
      var f: Node, k: nat :| Reachable(es[i].value, f, k) && Visible(o.recursive, depth + 1, k) && Matching(f, o) && f.path == p;
      assert Reachable(n, f, k + 1);
      assert Visible(o.recursive, depth, k + 1);
    }
  }

  /** The paths appended by the first `j` entries are the collectable paths below them. */
  lemma {:induction false} FoundInFirstIff(dir: Node, j: nat, depth: nat, o: Options, p: string)
    requires IsListedDir(dir) && j <= |dir.listing.entries|
    ensures p in FoundInFirst(dir, j, depth, o) <==> CollectableInFirst(dir, j, depth, o, p)
    decreases dir, 0, j
  {
    if j > 0 {
      var es := dir.listing.entries;
      var e := es[j - 1];
      FoundInFirstIff(dir, j - 1, depth, o, p);
      if e.Some? {
        assert e.value < dir;
        FoundIff(e.value, depth, o, p);
      }
      if CollectableInFirst(dir, j, depth, o, p) && !CollectableInFirst(dir, j - 1, depth, o, p) {
        var i :| 0 <= i < j && es[i].Some? && Collectable(es[i].value, depth, o, p);
        assert i == j - 1;
      }
    }
  }

  /**
   * Recursive mode: the walk appends the path of every matching file at any
   * depth below the root, and nothing else.
   */
  lemma RecursiveCollectsAllMatches(root: Node, o: Options, p: string)
    requires o.recursive
    ensures p in Found(root, 0, o) <==>
            exists f: Node, k: nat :: Reachable(root, f, k) && Matching(f, o) && f.path == p
  {
    FoundIff(root, 0, o, p);
    if p in Found(root, 0, o) {
      var f: Node, k: nat :| Reachable(root, f, k) && Visible(o.recursive, 0, k) && Matching(f, o) && f.path == p;
      assert Reachable(root, f, k) && Matching(f, o) && f.path == p;
    }
    if exists f: Node, k: nat :: Reachable(root, f, k) && Matching(f, o) && f.path == p {
      var f: Node, k: nat :| Reachable(root, f, k) && Matching(f, o) && f.path == p;
      assert Visible(o.recursive, 0, k);
      assert Collectable(root, 0, o, p);
    }
  }

  /**
   * Non-recursive mode: from the root only the root itself and its immediate
   * entries are scanned, so every appended path is that of a matching file at
   * most one level below the root, and every such file is appended.
   */
  lemma FlatStopsAtDepthOne(root: Node, o: Options, p: string)
    requires !o.recursive
    ensures p in Found(root, 0, o) <==>
            exists f: Node, k: nat :: k <= 1 && Reachable(root, f, k) && Matching(f, o) && f.path == p
  {
    FoundIff(root, 0, o, p);
    if p in Found(root, 0, o) {
      var f: Node, k: nat :| Reachable(root, f, k) && Visible(o.recursive, 0, k) && Matching(f, o) && f.path == p;
      assert k <= 1 && Reachable(root, f, k) && Matching(f, o) && f.path == p;
    }
    if exists f: Node, k: nat :: k <= 1 && Reachable(root, f, k) && Matching(f, o) && f.path == p {
      var f: Node, k: nat :| k <= 1 && Reachable(root, f, k) && Matching(f, o) && f.path == p;
      assert Visible(o.recursive, 0, k);
      assert Collectable(root, 0, o, p);
    }
  }

  // ---------------------------------------------------------------------------
  // Each file once
  // ---------------------------------------------------------------------------

  /** Every element of `s` occurs in it exactly once. */
  ghost predicate Distinct(s: seq<string>)
  {
    forall x :: x in multiset(s) ==> multiset(s)[x] == 1
  }

  /** A walk appends each path of the tree at most as often as the tree holds it. */
  lemma {:induction false} FoundWithinAllFiles(n: Node, depth: nat, o: Options)
    ensures multiset(Found(n, depth, o)) <= multiset(AllFiles(n))
    decreases n, 1
  {
    if n.Dir? && Descends(o.recursive, depth) && n.listing.Listed? {
      FoundInFirstWithinAllFiles(n, |n.listing.entries|, depth + 1, o);
    }
  }

  lemma {:induction false} FoundInFirstWithinAllFiles(dir: Node, j: nat, depth: nat, o: Options)
    requires IsListedDir(dir) && j <= |dir.listing.entries|
    ensures multiset(FoundInFirst(dir, j, depth, o)) <= multiset(AllFilesInFirst(dir, j))
    decreases dir, 0, j
  {
    if j > 0 {
      var e := dir.listing.entries[j - 1];
      FoundInFirstWithinAllFiles(dir, j - 1, depth, o);
      if e.Some? {
        assert e.value < dir;
        FoundWithinAllFiles(e.value, depth, o);
      }
    }
  }

  /**
   * When no two files of the tree share a path, every matching file the walk
   * reaches is appended exactly once, and the results hold no repeats.
   */
  lemma EachMatchAppendedOnce(n: Node, depth: nat, o: Options, p: string)
    requires Distinct(AllFiles(n))
    requires Collectable(n, depth, o, p)
    ensures multiset(Found(n, depth, o))[p] == 1
    ensures Distinct(Found(n, depth, o))
  {
    FoundIff(n, depth, o, p);
    FoundWithinAllFiles(n, depth, o);
    assert p in multiset(AllFiles(n));
  }
}
