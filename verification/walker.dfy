/**
 * The walk as the program runs it, with the threads taken away: a walker
 * holds the shared result list and the in-flight task counter; each child of
 * a directory is either admitted as a task of its own (counter up, visit,
 * counter down) or visited inline, and both do the same visit.
 */
module Walk {
  import opened Wrappers
  import opened Matcher
  import opened FileTree

  /** The most tasks that can be in flight: the root task alone when the ceiling is below one. */
  function Ceiling(maxThreads: nat): nat
  {
    if maxThreads < 1 then 1 else maxThreads
  }

  class Walker {
    /** The search settings; the query is already normalised. */
    const options: Options
    /** The admission ceiling (`max_threads`). */
    const maxThreads: nat
    /** The collected paths, appended in place. */
    var results: seq<string>
    /** The in-flight task counter; the root task accounts for the initial 1. */
    var count: nat
    /** The highest value the counter has held. */
    ghost var peak: nat

    /** The counter never drops below the root's 1 and never exceeds the ceiling. */
    ghost predicate Valid()
      reads this
    {
      1 <= count <= peak <= Ceiling(maxThreads)
    }

    constructor (options: Options, maxThreads: nat)
      ensures Valid()
      ensures this.options == options && this.maxThreads == maxThreads
      ensures results == [] && count == 1 && peak == 1
    {
      this.options := options;
      this.maxThreads := maxThreads;
      results := [];
      count := 1;
      peak := 1;
    }

    /**
     * Admission: a child gets a task of its own only while the counter is below
     * the ceiling, and the counter is raised when it does.
     */
    method Admit() returns (spawn: bool)
      requires Valid()
      modifies this`count, this`peak
      ensures Valid()
      ensures spawn <==> old(count) < maxThreads
      ensures count == if spawn then old(count) + 1 else old(count)
      ensures peak == if count > old(peak) then count else old(peak)
    {
      spawn := count < maxThreads;
      if spawn {
        count := count + 1;
        if count > peak {
          peak := count;
        }
      }
    }

    /** A child that had its own task finished: the counter goes down by one. */
    method Release()
      requires Valid() && count > 1
      modifies this`count
      ensures Valid()
      ensures count == old(count) - 1
    {
      count := count - 1;
    }

    /**
     * Visits `n` at `depth`: scans a file, enters a directory when the policy
     * allows and visits each of its entries at `depth + 1`, and does nothing
     * for anything else. It appends exactly what `Found` says, and the counter
     * is back where it was when it returns.
     */
    method Search(n: Node, depth: nat)
      requires Valid()
      modifies this`results, this`count, this`peak
      ensures Valid()
      ensures results == old(results) + Found(n, depth, options)
      ensures count == old(count)
      ensures old(peak) <= peak
      decreases n
    {
      match n
      case File(path, text) =>
        var found, _ := ScanLines(text, options.query, options.matchCase);
        if found {
          results := results + [path];
        }
      case Dir(_, listing) =>
        if Descends(options.recursive, depth) && listing.Listed? {
          var entries := listing.entries;
          for i := 0 to |entries|
            invariant Valid()
            invariant results == old(results) + FoundInFirst(n, i, depth + 1, options)
            invariant count == old(count)
            invariant old(peak) <= peak
          {
            var entry := entries[i];
            if entry.Some? {
              var child := entry.value;
              var spawn := Admit();
              Search(child, depth + 1);
              if spawn {
                Release();
              }
            }
          }
        }
      case Other =>
    }
  }

  /**
   * One whole search: normalise the query, start the counter at 1, walk the
   * tree from the root at depth 0, then read the counter the way the final
   * wait does. The results depend on the tree and the query settings only,
   * never on `maxThreads`; the counter read at the end is 1, so the wait ends.
   * `peak` is the walker's running maximum of the counter over the whole
   * search (raised by `Admit` whenever the counter goes above it), so the
   * counter never went above the ceiling.
   */
  method SearchTree(root: Node, rawQuery: string, matchCase: bool, recursive: bool, maxThreads: nat)
    returns (results: seq<string>, remaining: nat, ghost peak: nat)
    ensures results == Found(root, 0, Options(Normalize(rawQuery, matchCase), matchCase, recursive))
    ensures remaining == 1
    ensures 1 <= peak <= Ceiling(maxThreads)
  {
    var query := Normalize(rawQuery, matchCase);
    var walker := new Walker(Options(query, matchCase, recursive), maxThreads);
    walker.Search(root, 0);
    results, remaining, peak := walker.results, walker.count, walker.peak;
  }

  /**
   * A corollary of `SearchTree`, written as a client of it: whether a child is
   * spawned or visited inline, the visit is the same, so two searches that
   * differ only in the ceiling collect the same paths. It stands for no
   * function of the program; it states the program's independence from
   * `max_threads` as something a caller can observe.
   */
  method ResultsIndependentOfCeiling(root: Node, rawQuery: string, matchCase: bool, recursive: bool, m1: nat, m2: nat)
    returns (r1: seq<string>, r2: seq<string>)
    ensures r1 == r2
    ensures r1 == Found(root, 0, Options(Normalize(rawQuery, matchCase), matchCase, recursive))
  {
    var c1, c2;
    ghost var p1, p2;
    r1, c1, p1 := SearchTree(root, rawQuery, matchCase, recursive, m1);
    r2, c2, p2 := SearchTree(root, rawQuery, matchCase, recursive, m2);
  }
}
