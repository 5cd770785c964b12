/**
 The depth-bounded breadth-first search for a PKGBUILD (src/aur.rs, `find_pkgbuild`).

 Directories are nodes of a graph rather than a tree: `is_dir` follows symbolic links, so cycles
 are possible. A directory that cannot be listed ends the search with an error.
 */
module PkgbuildSearch {
  import opened Wrappers

  type Dir = string

  datatype Content = Content(hasPkgbuild: bool, readable: bool, subdirs: seq<Dir>)

  datatype Failure = NotFound | Unreadable

  type FileSystem = map<Dir, Content>

  ghost predicate Closed(fs: FileSystem) {
    forall d, i | d in fs && 0 <= i < |fs[d].subdirs| :: fs[d].subdirs[i] in fs
  }

  const MAX_DEPTH: nat := 3

  /** A descent from the root, one subdirectory a step. */
  ghost predicate Walk(fs: FileSystem, root: Dir, p: seq<Dir>) {
    && |p| > 0 && p[0] == root && (forall i | 0 <= i < |p| :: p[i] in fs)
    && forall i | 0 <= i < |p| - 1 :: p[i + 1] in fs[p[i]].subdirs
  }

  ghost predicate LeadsTo(fs: FileSystem, root: Dir, p: seq<Dir>, d: Dir, depth: nat) {
    Walk(fs, root, p) && p[|p| - 1] == d && |p| == depth + 1
  }

  /** `d` can be reached in `depth` steps. */
  ghost predicate AtDepth(fs: FileSystem, root: Dir, d: Dir, depth: nat) {
    exists p :: LeadsTo(fs, root, p, d, depth)
  }

  ghost predicate FoundAt(fs: FileSystem, root: Dir, d: Dir, depth: nat) {
    d in fs && fs[d].hasPkgbuild && depth <= 3 && AtDepth(fs, root, d, depth)
  }

  /** The search cannot list `d`, which it would have to. */
  ghost predicate BlockedAt(fs: FileSystem, root: Dir, d: Dir, depth: nat) {
    d in fs && !fs[d].readable && depth < 3 && AtDepth(fs, root, d, depth)
  }

  /** The search ends at such a directory, for better or worse. */
  predicate Stops(content: Content, depth: nat) {
    content.hasPkgbuild || (!content.readable && depth < MAX_DEPTH)
  }

  type Queue = seq<(Dir, nat)>

  // ---------------------------------------------------------------- termination

  /** How many directories a queued one still stands for. */
  ghost function Load(fs: FileSystem, d: Dir, left: nat): (n: nat)
    requires Closed(fs) && d in fs
    ensures n > 0
    decreases left, 0
  {
    if left == 0 then 1 else 1 + LoadAll(fs, fs[d].subdirs, left - 1)
  }

  ghost function LoadAll(fs: FileSystem, ds: seq<Dir>, left: nat): nat
    requires Closed(fs) && forall i | 0 <= i < |ds| :: ds[i] in fs
    decreases left, 1, |ds|
  {
    if ds == [] then 0 else Load(fs, ds[0], left) + LoadAll(fs, ds[1..], left)
  }

  ghost predicate Queued(fs: FileSystem, root: Dir, queue: Queue) {
    forall i | 0 <= i < |queue| ::
      queue[i].0 in fs && queue[i].1 <= MAX_DEPTH && AtDepth(fs, root, queue[i].0, queue[i].1)
  }

  ghost function QueueLoad(fs: FileSystem, queue: Queue): nat
    requires Closed(fs) && forall i | 0 <= i < |queue| :: queue[i].0 in fs && queue[i].1 <= MAX_DEPTH
  {
    if queue == [] then 0 else Load(fs, queue[0].0, MAX_DEPTH - queue[0].1) + QueueLoad(fs, queue[1..])
  }

  lemma {:induction false} QueueLoadAppend(fs: FileSystem, queue: Queue, d: Dir, depth: nat)
    requires Closed(fs) && d in fs && depth <= MAX_DEPTH
    requires forall i | 0 <= i < |queue| :: queue[i].0 in fs && queue[i].1 <= MAX_DEPTH
    ensures QueueLoad(fs, queue + [(d, depth)]) == QueueLoad(fs, queue) + Load(fs, d, MAX_DEPTH - depth)
  {
    if queue == [] {
      assert (queue + [(d, depth)])[1..] == [];
    } else {
      assert (queue + [(d, depth)])[1..] == queue[1..] + [(d, depth)];
      QueueLoadAppend(fs, queue[1..], d, depth);
    }
  }

  // ---------------------------------------------------------------- what the queue stands for

  /** Depths never fall along the queue, and all are `depth` or one more. */
  ghost predicate LevelledFrom(queue: Queue, depth: nat) {
    && (forall i | 0 <= i < |queue| :: depth <= queue[i].1 <= depth + 1)
    && (forall i, j | 0 <= i <= j < |queue| :: queue[i].1 <= queue[j].1)
  }

  /** The queue spans at most two levels, in order. */
  ghost predicate Levelled(queue: Queue) {
    queue != [] ==> LevelledFrom(queue, queue[0].1)
  }

  ghost predicate Meets(p: seq<Dir>, queue: Queue) {
    exists i :: 0 <= i < |p| && (p[i], i) in queue
  }

  /** Every descent to a PKGBUILD or to an unreadable directory still passes through the queue. */
  ghost predicate Covers(fs: FileSystem, root: Dir, queue: Queue) {
    forall p | Walk(fs, root, p) && |p| <= MAX_DEPTH + 1 && Stops(fs[p[|p| - 1]], |p| - 1) :: Meets(p, queue)
  }

  lemma StartCovers(fs: FileSystem, root: Dir)
    requires root in fs
    ensures Queued(fs, root, [(root, 0)]) && Covers(fs, root, [(root, 0)])
  {
    assert LeadsTo(fs, root, [root], root, 0);
    forall p | Walk(fs, root, p)
      ensures Meets(p, [(root, 0)])
    {
      assert (p[0], 0) in [(root, 0)];
    }
  }

  /** Replacing a readable directory without PKGBUILD by its subdirectories keeps every descent. */
  lemma StepCovers(fs: FileSystem, root: Dir, queue: Queue, next: Queue)
    requires Queued(fs, root, queue) && Covers(fs, root, queue) && queue != [] && !Stops(fs[queue[0].0], queue[0].1)
    requires forall x :: x in queue[1..] ==> x in next
    requires var (d, depth) := queue[0];
             depth < MAX_DEPTH ==> forall s | s in fs[d].subdirs :: (s, depth + 1) in next
    ensures Covers(fs, root, next)
  {
    var (d, depth) := queue[0];
    forall p | Walk(fs, root, p) && |p| <= MAX_DEPTH + 1 && Stops(fs[p[|p| - 1]], |p| - 1)
      ensures Meets(p, next)
    {
      assert Meets(p, queue);
      var i :| 0 <= i < |p| && (p[i], i) in queue;
      if (p[i], i) in queue[1..] {
        assert (p[i], i) in next;
      } else {
        assert (p[i], i) == queue[0];
        assert i < |p| - 1;
        assert (p[i + 1], i + 1) in next;
      }
    }
  }

  lemma Deeper(fs: FileSystem, root: Dir, d: Dir, depth: nat, s: Dir)
    requires AtDepth(fs, root, d, depth) && d in fs && s in fs && s in fs[d].subdirs
    ensures AtDepth(fs, root, s, depth + 1)
  {
    var p :| LeadsTo(fs, root, p, d, depth);
    assert LeadsTo(fs, root, p + [s], s, depth + 1);
  }

  // ---------------------------------------------------------------- the search

  lemma PushOne(fs: FileSystem, root: Dir, queue: Queue, d: Dir, depth: nat, s: Dir)
    requires Closed(fs) && Queued(fs, root, queue) && d in fs && depth < MAX_DEPTH && AtDepth(fs, root, d, depth)
    requires s in fs && s in fs[d].subdirs && LevelledFrom(queue, depth)
    ensures Queued(fs, root, queue + [(s, depth + 1)]) && LevelledFrom(queue + [(s, depth + 1)], depth)
    ensures QueueLoad(fs, queue + [(s, depth + 1)]) == QueueLoad(fs, queue) + Load(fs, s, MAX_DEPTH - depth - 1)
  {
    hide AtDepth, Load;
    Deeper(fs, root, d, depth, s);
    QueueLoadAppend(fs, queue, s, depth + 1);
  }

  /** Queue the subdirectories of `d`, which is at `depth`. */
  method PushSubdirs(fs: FileSystem, root: Dir, queue0: Queue, d: Dir, depth: nat) returns (queue: Queue)
    requires Closed(fs) && Queued(fs, root, queue0) && d in fs && depth < MAX_DEPTH && AtDepth(fs, root, d, depth)
    requires LevelledFrom(queue0, depth)
    ensures Queued(fs, root, queue)
    ensures QueueLoad(fs, queue) == QueueLoad(fs, queue0) + LoadAll(fs, fs[d].subdirs, MAX_DEPTH - depth - 1)
    ensures forall x :: x in queue0 ==> x in queue
    ensures forall s | s in fs[d].subdirs :: (s, depth + 1) in queue
    ensures LevelledFrom(queue, depth)
  {
    hide AtDepth, Load, LevelledFrom;
    queue := queue0;
    var subdirs := fs[d].subdirs;
    assert subdirs[0..] == subdirs;
    for k := 0 to |subdirs|
      invariant Queued(fs, root, queue)
      invariant QueueLoad(fs, queue) + LoadAll(fs, subdirs[k..], MAX_DEPTH - depth - 1)
                == QueueLoad(fs, queue0) + LoadAll(fs, subdirs, MAX_DEPTH - depth - 1)
      invariant forall x :: x in queue0 ==> x in queue
      invariant forall i | 0 <= i < k :: (subdirs[i], depth + 1) in queue
      invariant LevelledFrom(queue, depth)
    {
      var s := subdirs[k];
      PushOne(fs, root, queue, d, depth, s);
      assert subdirs[k..][1..] == subdirs[k + 1..];
      queue := queue + [(s, depth + 1)];
    }
  }

  /** The head of the queue is at least depth: any descent to a PKGBUILD is still queued. */
  lemma HeadIsLeast(fs: FileSystem, root: Dir, queue: Queue, d: Dir, depth: nat)
    requires Covers(fs, root, queue) && Levelled(queue) && queue != [] && FoundAt(fs, root, d, depth)
    ensures queue[0].1 <= depth
  {
    var p :| LeadsTo(fs, root, p, d, depth);
    assert Meets(p, queue);
    var i :| 0 <= i < |p| && (p[i], i) in queue;
    var k :| 0 <= k < |queue| && queue[k] == (p[i], i);
  }

  /** `d` holds a PKGBUILD within three levels, and none lies higher. */
  ghost predicate IsHighest(fs: FileSystem, root: Dir, d: Dir, depth: nat) {
    FoundAt(fs, root, d, depth) && forall other, deeper: nat | FoundAt(fs, root, other, deeper) :: depth <= deeper
  }

  lemma HeadIsHighest(fs: FileSystem, root: Dir, queue: Queue)
    requires Covers(fs, root, queue) && Levelled(queue) && Queued(fs, root, queue)
    requires queue != [] && fs[queue[0].0].hasPkgbuild
    ensures IsHighest(fs, root, queue[0].0, queue[0].1)
  {
    hide Covers, Levelled, AtDepth;
    forall other, deeper: nat | FoundAt(fs, root, other, deeper)
      ensures queue[0].1 <= deeper
    {
      HeadIsLeast(fs, root, queue, other, deeper);
    }
  }

  lemma NothingLeft(fs: FileSystem, root: Dir, d: Dir, depth: nat)
    requires Covers(fs, root, [])
    ensures !FoundAt(fs, root, d, depth) && !BlockedAt(fs, root, d, depth)
  {
    forall p
      ensures !(LeadsTo(fs, root, p, d, depth) && depth <= MAX_DEPTH && d in fs && Stops(fs[d], depth))
    {
      assert !Meets(p, []);
    }
  }

  /** `d` cannot be listed, and no PKGBUILD lies higher. */
  ghost predicate BlocksFirst(fs: FileSystem, root: Dir, d: Dir, depth: nat) {
    BlockedAt(fs, root, d, depth) && forall other, deeper: nat | FoundAt(fs, root, other, deeper) :: depth <= deeper
  }

  lemma HeadBlocks(fs: FileSystem, root: Dir, queue: Queue)
    requires Covers(fs, root, queue) && Levelled(queue) && Queued(fs, root, queue)
    requires queue != [] && queue[0].1 < MAX_DEPTH && !fs[queue[0].0].readable
    ensures BlocksFirst(fs, root, queue[0].0, queue[0].1)
  {
    hide Covers, Levelled, AtDepth;
    forall other, deeper: nat | FoundAt(fs, root, other, deeper)
      ensures queue[0].1 <= deeper
    {
      HeadIsLeast(fs, root, queue, other, deeper);
    }
  }

  /** The rest of the queue, before and after the head's subdirectories are added. */
  lemma RestOfQueue(fs: FileSystem, root: Dir, queue: Queue)
    requires Closed(fs) && Queued(fs, root, queue) && Levelled(queue) && queue != []
    ensures Queued(fs, root, queue[1..]) && LevelledFrom(queue[1..], queue[0].1) && Levelled(queue[1..])
    ensures QueueLoad(fs, queue) == Load(fs, queue[0].0, MAX_DEPTH - queue[0].1) + QueueLoad(fs, queue[1..])
  {
  }

  lemma LevelledAgain(queue: Queue, depth: nat)
    requires LevelledFrom(queue, depth)
    ensures Levelled(queue)
  {
  }

  /** `find_pkgbuild`: the directory of a PKGBUILD of least depth among all within three levels.
      It fails when there is none and everything above the third level can be listed, or at a
      directory that cannot be listed and has no PKGBUILD above it. */
  method FindPkgbuild(fs: FileSystem, root: Dir) returns (found: Result<Dir, Failure>)
    requires Closed(fs) && root in fs
    ensures found.Ok? ==> exists depth: nat :: IsHighest(fs, root, found.value, depth)
    ensures found == Err(NotFound) ==>
              forall d, depth: nat :: !FoundAt(fs, root, d, depth) && !BlockedAt(fs, root, d, depth)
    ensures found == Err(Unreadable) ==> exists d, depth: nat :: BlocksFirst(fs, root, d, depth)
  {
    hide Covers, Levelled, LevelledFrom, AtDepth, Closed, BlocksFirst;
    var queue: Queue := [(root, 0)];
    StartCovers(fs, root);
    LevelledOne(root);
    while queue != []
      invariant Queued(fs, root, queue) && Levelled(queue) && Covers(fs, root, queue)
      decreases QueueLoad(fs, queue)
    {
      var (current, depth) := queue[0];
      ghost var before := queue;
      if fs[current].hasPkgbuild {
        HeadIsHighest(fs, root, queue);
        return Ok(current);
      }
      RestOfQueue(fs, root, queue);
      queue := queue[1..];
      if depth < MAX_DEPTH {
        if !fs[current].readable {
          HeadBlocks(fs, root, before);
          return Err(Unreadable);
        }
        queue := PushSubdirs(fs, root, queue, current, depth);
        LevelledAgain(queue, depth);
      }
      StepCovers(fs, root, before, queue);
    }
    forall d, depth: nat
      ensures !FoundAt(fs, root, d, depth) && !BlockedAt(fs, root, d, depth)
    {
      NothingLeft(fs, root, d, depth);
    }
    found := Err(NotFound);
  }

  lemma LevelledOne(root: Dir)
    ensures Levelled([(root, 0)])
  {
  }
}
