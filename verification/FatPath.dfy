/** Path walking as a fact about the volume: which file or directory a path names. */
module FatPath {
  import opened Machine
  import opened SectorStream
  import opened FatCursor
  import opened FatVolume
  import opened FatNames
  import opened FatSearch

  /** The name buffer of the path walk. */
  const MAX_PATH_SIZE: nat := 256

  /** A file or directory together with a place in it: all a handle stands for. */
  datatype Node = Node(origin: Origin, cursor: Cursor)

  function NodeOf(e: Entry): Node {
    Node(Chain(FirstClusterOf(e)), CursorOf(e))
  }

  function Component(path: seq<byte>): seq<byte> {
    path[..IndexOf(path, SLASH)]
  }

  predicate IsLast(path: seq<byte>) {
    IndexOf(path, SLASH) == |path|
  }

  function Rest(path: seq<byte>): (rest: seq<byte>)
    ensures path != [] ==> |rest| < |path|
  {
    if IsLast(path) then [] else path[IndexOf(path, SLASH) + 1..]
  }

  /** One leading slash is ignored. */
  function Relative(path: seq<byte>): seq<byte> {
    if path != [] && path[0] == SLASH then path[1..] else path
  }

  predicate Placed(n: Node) {
    Unlimited(n.cursor) || n.cursor.position <= n.cursor.size
  }

  /** What was found can be used: it is a directory if it must be, and its first sector can be read. */
  predicate Usable(v: Volume, e: Entry, isLast: bool) {
    (isLast || IsDirectoryEntry(e)) && !v.bad(ClusterToLba(v, FirstClusterOf(e)))
  }

  /** One lookup from `n` under the search key `key`, then opening what was found. */
  ghost function Step(v: Volume, n: Node, key: seq<byte>, isLast: bool): (m: Option<Node>)
    requires Placed(n)
    ensures m.Some? ==> Placed(m.value)
  {
    match Search(StreamOf(v, n.origin), n.cursor, key)
    case None => None
    case Some(e) => if Usable(v, e, isLast) then Some(NodeOf(e)) else None
  }

  /** What `path` names, looked up from `n`; every component but the last must be a directory. */
  ghost function Resolve(v: Volume, n: Node, path: seq<byte>): Option<Node>
    requires Placed(n)
    decreases |path|
  {
    if path == [] then Some(n)
    else
      match Step(v, n, FatName(Component(path)), IsLast(path))
      case None => None
      case Some(m) => Resolve(v, m, Rest(path))
  }

  /** The search keys the walk may use for a component: with or without the unset byte. */
  predicate KeyFor(comp: seq<byte>, key: seq<byte>) {
    key == FatName(comp) || exists tail: byte :: key == FatName(comp + [tail])
  }

  lemma KeyIsSettled(comp: seq<byte>, key: seq<byte>)
    requires IgnoresTail(comp) && KeyFor(comp, key)
    ensures key == FatName(comp)
  {
    TailIndependence(comp);
  }

  lemma KeysSettled(comp: seq<byte>)
    requires IgnoresTail(comp)
    ensures forall key :: KeyFor(comp, key) ==> key == FatName(comp)
  {
    forall key | KeyFor(comp, key)
      ensures key == FatName(comp)
    {
      KeyIsSettled(comp, key);
    }
  }

  /** Every component fits the name buffer with the NUL that is put one place late. */
  predicate ComponentsFit(path: seq<byte>)
    decreases |path|
  {
    path == [] || (|Component(path)| + 1 < MAX_PATH_SIZE && ComponentsFit(Rest(path)))
  }

  /** No component's lookup depends on the byte left unset behind it. */
  predicate TailsIgnored(path: seq<byte>)
    decreases |path|
  {
    path == [] || (IgnoresTail(Component(path)) && TailsIgnored(Rest(path)))
  }

  /** A directory on the path whose first sector cannot be read: the walk would go on without a handle. */
  ghost predicate LosesDirectory(v: Volume, n: Node, key: seq<byte>)
    requires Placed(n)
  {
    match Search(StreamOf(v, n.origin), n.cursor, key)
    case None => false
    case Some(e) => IsDirectoryEntry(e) && v.bad(ClusterToLba(v, FirstClusterOf(e)))
  }

  /**
   The walk along `path` comes to an end: each search it makes does, without a disk
   error, and it loses no directory it still has to search.  Only the directories on
   the path are asked for.
   */
  ghost predicate WalkEnds(v: Volume, n: Node, path: seq<byte>)
    requires Placed(n)
    decreases |path|
  {
    path == [] ||
    forall key: seq<byte> :: KeyFor(Component(path), key) ==>
      && SearchEnds(StreamOf(v, n.origin), n.cursor, key)
      && (Rest(path) == [] || !LosesDirectory(v, n, key))
      && (Step(v, n, key, IsLast(path)).Some? ==> WalkEnds(v, Step(v, n, key, IsLast(path)).value, Rest(path)))
  }

  /** A walk that ends, one component further. */
  lemma WalkStepEnds(v: Volume, n: Node, path: seq<byte>, key: seq<byte>)
    requires Placed(n) && path != [] && WalkEnds(v, n, path)
    requires KeyFor(Component(path), key)
    ensures SearchEnds(StreamOf(v, n.origin), n.cursor, key)
    ensures Rest(path) == [] || !LosesDirectory(v, n, key)
    ensures var m := Step(v, n, key, IsLast(path)); m.Some? ==> WalkEnds(v, m.value, Rest(path))
  {
  }

  // ---------------------------------------------------------------- what a walk may come to

  /** `r` is what the walk along `path` comes to for some bytes left unset behind its components. */
  ghost predicate MayReach(v: Volume, n: Node, path: seq<byte>, r: Option<Node>)
    requires Placed(n)
    decreases |path|
  {
    if path == [] then r == Some(n)
    else exists key :: KeyFor(Component(path), key) && MayStep(v, n, path, key, r)
  }

  /** The same when the first component is looked up under `key`. */
  ghost predicate MayStep(v: Volume, n: Node, path: seq<byte>, key: seq<byte>, r: Option<Node>)
    requires Placed(n) && path != []
    decreases |path|, 0
  {
    match Step(v, n, key, IsLast(path))
    case None => r == None
    case Some(m) => MayReach(v, m, Rest(path), r)
  }

  /**
   What an open leaves: the node it comes to, if any, and the root rewound after the
   lookup of the first component, under the same key.
   */
  ghost predicate Outcome(v: Volume, n: Node, path: seq<byte>, r: Option<Node>, root: Node)
    requires Placed(n)
  {
    if path == [] then r == Some(n) && root == n
    else exists key :: KeyFor(Component(path), key) && MayStep(v, n, path, key, r) && root == Rewound(v, n, key)
  }

  lemma MayStop(v: Volume, n: Node, path: seq<byte>, key: seq<byte>)
    requires Placed(n) && path != [] && KeyFor(Component(path), key)
    requires Step(v, n, key, IsLast(path)) == None
    ensures MayReach(v, n, path, None) && MayStep(v, n, path, key, None)
  {
  }

  lemma MayGoOn(v: Volume, n: Node, path: seq<byte>, key: seq<byte>)
    requires Placed(n) && path != [] && KeyFor(Component(path), key)
    requires Step(v, n, key, IsLast(path)).Some?
    ensures forall r :: MayReach(v, Step(v, n, key, IsLast(path)).value, Rest(path), r) ==>
              MayReach(v, n, path, r) && MayStep(v, n, path, key, r)
  {
    forall r | MayReach(v, Step(v, n, key, IsLast(path)).value, Rest(path), r)
      ensures MayReach(v, n, path, r) && MayStep(v, n, path, key, r)
    {
      assert MayStep(v, n, path, key, r);
    }
  }

  lemma MayEnd(v: Volume, n: Node)
    requires Placed(n)
    ensures MayReach(v, n, [], Some(n))
  {
  }

  /** Without a component that sees the unset byte a walk can come to one thing only: what the path names. */
  lemma {:induction false} MayReachIsResolve(v: Volume, n: Node, path: seq<byte>, r: Option<Node>)
    requires Placed(n) && TailsIgnored(path)
    ensures MayReach(v, n, path, r) <==> r == Resolve(v, n, path)
    decreases |path|
  {
    if path != [] {
      var key := FatName(Component(path));
      KeysSettled(Component(path));
      assert KeyFor(Component(path), key);
      var m := Step(v, n, key, IsLast(path));
      if m.Some? {
        MayReachIsResolve(v, m.value, Rest(path), r);
      }
      assert MayReach(v, n, path, r) <==> MayStep(v, n, path, key, r);
    }
  }

  lemma OutcomeIsResolve(v: Volume, n: Node, path: seq<byte>, r: Option<Node>, root: Node)
    requires Placed(n) && TailsIgnored(path) && Outcome(v, n, path, r, root)
    ensures r == Resolve(v, n, path)
    ensures path != [] ==> root == Rewound(v, n, FatName(Component(path)))
  {
    if path != [] {
      var key :| KeyFor(Component(path), key) && MayStep(v, n, path, key, r) && root == Rewound(v, n, key);
      assert MayReach(v, n, path, r);
      KeysSettled(Component(path));
    }
    MayReachIsResolve(v, n, path, r);
  }

  // ---------------------------------------------------------------- the rewound root

  /**
   The root after a search for `key` and a rewind: the sector the search stopped in
   now passes for its first one.
   */
  ghost function Rewound(v: Volume, n: Node, key: seq<byte>): (m: Node)
    requires Placed(n)
    ensures Placed(m)
  {
    var s := StreamOf(v, n.origin);
    Node(Root(s.sector(SectorOf(StopPosition(s, n.cursor, key)))), n.cursor.(position := 0))
  }

  /**
   What the root's bytes must be for a lookup of `key` to do no harm: the entry found is
   among the first 15, or the sector that holds what follows it equals the first sector;
   and when there is none, the sector in which the root's size lies does.
   */
  ghost predicate Harmless(v: Volume, n: Node, key: seq<byte>)
    requires Placed(n)
  {
    var s, c := StreamOf(v, n.origin), n.cursor;
    && (forall i: nat :: FirstHit(s, c, key, i) ==> i < 15 || s.sector((i + 1) / 16) == s.sector(0))
    && ((forall i: nat :: !Hit(s, c, key, i)) ==> s.sector(SectorOf(c.size)) == s.sector(0))
  }

  lemma RewindAfterHit(v: Volume, n: Node, key: seq<byte>, i: nat)
    requires Placed(n) && n.origin.Root? && n.cursor.position == 0
    requires FirstHit(StreamOf(v, n.origin), n.cursor, key, i)
    ensures var s := StreamOf(v, n.origin);
            Rewound(v, n, key) == n <==> i < 15 || s.sector((i + 1) / 16) == s.sector(0)
  {
    StopsBehindHit(StreamOf(v, n.origin), n.cursor, key, i);
    assert SectorOf(32 * i + 32) == (i + 1) / 16;
  }

  lemma RewindAfterMiss(v: Volume, n: Node, key: seq<byte>)
    requires Placed(n) && n.origin.Root? && n.cursor.position == 0
    requires forall i: nat :: !Hit(StreamOf(v, n.origin), n.cursor, key, i)
    ensures var s := StreamOf(v, n.origin);
            Rewound(v, n, key) == n <==> s.sector(SectorOf(n.cursor.size)) == s.sector(0)
  {
    assert forall i: nat :: !FirstHit(StreamOf(v, n.origin), n.cursor, key, i);
  }

  /** A lookup and a rewind leave the root as it was exactly when its bytes make the lookup harmless. */
  lemma RewindHarmlessIff(v: Volume, n: Node, key: seq<byte>)
    requires Placed(n) && n.origin.Root? && n.cursor.position == 0
    ensures Rewound(v, n, key) == n <==> Harmless(v, n, key)
  {
    hide Rewound, Hit;
    var s, c := StreamOf(v, n.origin), n.cursor;
    if i: nat :| Hit(s, c, key, i) {
      var k := LeastHit(s, c, key, i);
      RewindAfterHit(v, n, key, k);
      forall j: nat | FirstHit(s, c, key, j)
        ensures j == k
      {
        FirstHitUnique(s, c, key, j, k);
      }
    } else {
      RewindAfterMiss(v, n, key);
      assert forall j: nat :: !FirstHit(s, c, key, j);
    }
  }

  /** The root after a run of opens that looked up these keys in it, one after the other. */
  ghost function RootAfter(v: Volume, n: Node, keys: seq<seq<byte>>): (m: Node)
    requires Placed(n)
    ensures Placed(m)
    decreases |keys|
  {
    if keys == [] then n else RootAfter(v, Rewound(v, n, keys[0]), keys[1..])
  }

  lemma {:induction false} RootAfterSnoc(v: Volume, n: Node, keys: seq<seq<byte>>, key: seq<byte>)
    requires Placed(n)
    ensures RootAfter(v, n, keys + [key]) == Rewound(v, RootAfter(v, n, keys), key)
    decreases |keys|
  {
    if keys == [] {
      assert ([] + [key])[1..] == [];
    } else {
      assert (keys + [key])[1..] == keys[1..] + [key];
      RootAfterSnoc(v, Rewound(v, n, keys[0]), keys[1..], key);
    }
  }

  /**
   Over a whole run of opens the root is never stale exactly when every single lookup
   of the run is harmless for the root it started with.
   */
  lemma NeverStaleIff(v: Volume, n: Node, keys: seq<seq<byte>>)
    requires Placed(n) && n.origin.Root? && n.cursor.position == 0
    ensures (forall k: nat :: k <= |keys| ==> RootAfter(v, n, keys[..k]) == n) <==>
            (forall k: nat :: k < |keys| ==> Harmless(v, n, keys[k]))
  {
    if forall k: nat :: k <= |keys| ==> RootAfter(v, n, keys[..k]) == n {
      forall k: nat | k < |keys|
        ensures Harmless(v, n, keys[k])
      {
        assert keys[..k + 1] == keys[..k] + [keys[k]];
        RootAfterSnoc(v, n, keys[..k], keys[k]);
        RewindHarmlessIff(v, n, keys[k]);
      }
    }
    if forall k: nat :: k < |keys| ==> Harmless(v, n, keys[k]) {
      forall k: nat | k <= |keys|
        ensures RootAfter(v, n, keys[..k]) == n
      {
        HarmlessRun(v, n, keys[..k]);
      }
    }
  }

  lemma {:induction false} HarmlessRun(v: Volume, n: Node, keys: seq<seq<byte>>)
    requires Placed(n) && n.origin.Root? && n.cursor.position == 0
    requires forall k: nat :: k < |keys| ==> Harmless(v, n, keys[k])
    ensures RootAfter(v, n, keys) == n
    decreases |keys|
  {
    if keys != [] {
      RewindHarmlessIff(v, n, keys[0]);
      assert forall k: nat :: k < |keys[1..]| ==> keys[1..][k] == keys[k + 1];
      HarmlessRun(v, n, keys[1..]);
    }
  }

  /** Opening only files whose entries are among the first 15 never leaves a root stale, however large it is. */
  lemma EarlyEntriesNeverStale(v: Volume, n: Node, keys: seq<seq<byte>>)
    requires Placed(n) && n.origin.Root? && n.cursor.position == 0
    requires forall k: nat :: k < |keys| ==>
               exists i: nat :: i < 15 && FirstHit(StreamOf(v, n.origin), n.cursor, keys[k], i)
    ensures RootAfter(v, n, keys) == n
  {
    forall k: nat | k < |keys|
      ensures Harmless(v, n, keys[k])
    {
      var i: nat :| i < 15 && FirstHit(StreamOf(v, n.origin), n.cursor, keys[k], i);
      RewindAfterHit(v, n, keys[k], i);
      RewindHarmlessIff(v, n, keys[k]);
    }
    HarmlessRun(v, n, keys);
  }

  /** A root of fewer than 16 entries is never left stale, whatever is looked up, found or not. */
  lemma SmallRootNeverStale(v: Volume, n: Node, keys: seq<seq<byte>>)
    requires Placed(n) && n.origin.Root? && n.cursor.position == 0
    requires 0 < n.cursor.size < 512
    ensures RootAfter(v, n, keys) == n
  {
    var s, c := StreamOf(v, n.origin), n.cursor;
    forall k: nat | k < |keys|
      ensures Harmless(v, n, keys[k])
    {
      assert forall i: nat :: Hit(s, c, keys[k], i) ==> Readable(s, c, i) && 32 * i + 32 <= c.size;
    }
    HarmlessRun(v, n, keys);
  }

  /** Taking the first component off a path the walk can handle leaves such a path. */
  lemma SplitPath(path: seq<byte>)
    requires path != [] && NUL !in path && ComponentsFit(path)
    ensures |Component(path)| + 1 < MAX_PATH_SIZE && NUL !in Component(path)
    ensures NUL !in Rest(path) && ComponentsFit(Rest(path))
    ensures IsLast(path) ==> Rest(path) == []
    ensures TailsIgnored(path) ==> IgnoresTail(Component(path)) && TailsIgnored(Rest(path))
  {
  }

  lemma ResolveStep(v: Volume, n: Node, path: seq<byte>)
    requires Placed(n) && path != []
    ensures Resolve(v, n, path) ==
              match Step(v, n, FatName(Component(path)), IsLast(path))
              case None => None
              case Some(m) => Resolve(v, m, Rest(path))
  {
  }

  lemma ResolveDone(v: Volume, n: Node)
    requires Placed(n)
    ensures Resolve(v, n, []) == Some(n)
  {
  }
}
