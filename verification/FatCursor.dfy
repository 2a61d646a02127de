/**
 What one read does to a handle, stated on positions and sizes alone, and the
 proof that the way a caller cuts its reads into calls cannot be observed.
 */
module FatCursor {
  import opened Machine
  import opened SectorStream

  /** The part of a handle a caller can see. */
  datatype Cursor = Cursor(position: nat, size: nat, isDirectory: bool)

  /** A directory entry gives no size for a subdirectory: only its chain limits it. */
  predicate Unlimited(c: Cursor) {
    c.isDirectory && c.size == 0
  }

  function Limit(c: Cursor, n: nat): (m: nat)
    requires Unlimited(c) || c.position <= c.size
  {
    if Unlimited(c) then n else Min(n, c.size - c.position)
  }

  /** The chain has been followed to its end: the cursor stands there with nothing left. */
  predicate Ended(s: Stream, c: Cursor) {
    && c.position > 0
    && OffsetIn(c.position) == 0
    && c.size == c.position
    && Reachable(s, SectorOf(c.position) - 1)
    && s.ends(SectorOf(c.position))
  }

  /** A cursor that no failed disk read has left behind. */
  predicate Sound(s: Stream, c: Cursor) {
    && (Unlimited(c) || c.position <= c.size)
    && (Reachable(s, SectorOf(c.position)) || Ended(s, c))
  }

  /** How many bytes a read of `n` delivers. */
  function Delivered(s: Stream, c: Cursor, n: nat): (k: nat)
    requires Unlimited(c) || c.position <= c.size
    ensures k <= n
  {
    Available(s, c.position, Limit(c, n))
  }

  /** Position `p` is where a sector would begin that the chain no longer has. */
  predicate AtChainEnd(s: Stream, p: nat) {
    OffsetIn(p) == 0 && s.ends(SectorOf(p))
  }

  /** The cursor after `k` bytes were delivered: meeting the end of the chain fixes the size. */
  function Land(s: Stream, c: Cursor, k: nat): Cursor {
    var p := c.position + k;
    if k > 0 && AtChainEnd(s, p) then Cursor(p, p, c.isDirectory) else c.(position := p)
  }

  /** The cursor after a read of `n`. */
  function After(s: Stream, c: Cursor, n: nat): (c': Cursor)
    requires Unlimited(c) || c.position <= c.size
    ensures Unlimited(c') || c'.position <= c'.size
  {
    Land(s, c, Delivered(s, c, n))
  }

  /** The read ran into a sector the drive could not deliver. */
  predicate ReadFails(s: Stream, c: Cursor, n: nat)
    requires Unlimited(c) || c.position <= c.size
  {
    var k := Delivered(s, c, n);
    var p := c.position + k;
    && k > 0
    && OffsetIn(p) == 0
    && !s.ends(SectorOf(p))
    && s.bad(SectorOf(p))
  }

  lemma EndedDeliversNothing(s: Stream, c: Cursor, n: nat)
    requires Ended(s, c)
    ensures Delivered(s, c, n) == 0 && After(s, c, n) == c
  {
  }

  lemma StartContinues(s: Stream, c: Cursor, n: nat)
    requires Unlimited(c) || c.position <= c.size
    ensures Continues(s, c, n, c, 0)
  {
  }

  lemma EndedHasNoLimit(s: Stream, c: Cursor, n: nat)
    requires Sound(s, c) && Limit(c, n) > 0
    ensures Reachable(s, SectorOf(c.position))
  {
  }

  /** A read either keeps the cursor sound or ran into an unreadable sector, never both. */
  lemma ReadKeepsSound(s: Stream, c: Cursor, n: nat)
    requires Sound(s, c)
    ensures Sound(s, After(s, c, n)) <==> !ReadFails(s, c, n)
  {
    hide Available, Limit;
    if Ended(s, c) {
      EndedDeliversNothing(s, c, n);
    } else if Delivered(s, c, n) == 0 {
      assert After(s, c, n) == c;
    } else {
      AvailableLands(s, c.position, Limit(c, n));
      var p := c.position + Delivered(s, c, n);
      var q := SectorOf(p);
      if OffsetIn(p) != 0 {
        assert Reachable(s, q);
      } else if s.ends(q) {
        assert Ended(s, After(s, c, n));
      } else {
        assert Reachable(s, q) <==> !s.bad(q);
      }
    }
  }

  lemma SizeBound(s: Stream, c: Cursor, n: nat)
    requires Unlimited(c) || c.position <= c.size
    ensures var c1 := After(s, c, n); c1.size == c.size || c1.size == c1.position
  {
  }

  /** The read completed a sector and found the chain at its end. */
  predicate Stops(s: Stream, c: Cursor, n: nat)
    requires Unlimited(c) || c.position <= c.size
  {
    Delivered(s, c, n) > 0 && AtChainEnd(s, c.position + Delivered(s, c, n))
  }

  /** A read that meets the end of the chain leaves an ended cursor; a longer one gets no further. */
  lemma StopIsFinal(s: Stream, c: Cursor, n: nat)
    requires Sound(s, c) && !Ended(s, c)
    requires Stops(s, c, n)
    ensures Ended(s, After(s, c, n))
    ensures !Reachable(s, SectorOf(c.position + Delivered(s, c, n)))
  {
    AvailableLands(s, c.position, Limit(c, n));
  }

  /** A read that neither fails nor meets the end of the chain delivers all it was asked for. */
  lemma FullDelivery(s: Stream, c: Cursor, n: nat)
    requires Sound(s, c) && !Ended(s, c)
    requires !Stops(s, c, n) && !ReadFails(s, c, n)
    ensures Delivered(s, c, n) == Limit(c, n)
  {
    AvailableStops(s, c.position, Limit(c, n));
    if Delivered(s, c, n) < Limit(c, n) {
      AvailableLands(s, c.position, Limit(c, n));
    }
  }

  lemma NothingBeyond(s: Stream, c: Cursor, a: nat, b: nat)
    requires Sound(s, c) && !Ended(s, c)
    requires Stops(s, c, a)
    ensures Delivered(s, c, a + b) == Delivered(s, c, a)
  {
    StopIsFinal(s, c, a);
    var la, lab := Limit(c, a), Limit(c, a + b);
    AvailableSplit(s, c.position, la, lab - la);
  }

  lemma ContinuesWhole(s: Stream, c: Cursor, a: nat, b: nat)
    requires Unlimited(c) || c.position <= c.size
    requires !Stops(s, c, a) && Delivered(s, c, a) == Limit(c, a)
    ensures var c1 := After(s, c, a);
            && c1 == c.(position := c.position + Limit(c, a))
            && Delivered(s, c, a + b) == Limit(c, a) + Delivered(s, c1, b)
  {
    hide Reachable, AtChainEnd, SectorOf, OffsetIn;
    var rest := Limit(c, a + b) - Limit(c, a);
    var c1 := After(s, c, a);
    assert Limit(c1, b) == rest;
    AvailableSplit(s, c.position, Limit(c, a), rest);
  }

  lemma LandCompose(s: Stream, c: Cursor, k: nat, k1: nat)
    requires k > 0 ==> !AtChainEnd(s, c.position + k)
    ensures Land(s, c, k + k1) == Land(s, c.(position := c.position + k), k1)
  {
  }

  lemma CursorsCompose(s: Stream, c: Cursor, a: nat, b: nat)
    requires Sound(s, c)
    requires !ReadFails(s, c, a)
    ensures var c1 := After(s, c, a);
            && c1.position == c.position + Delivered(s, c, a)
            && Delivered(s, c, a + b) == Delivered(s, c, a) + Delivered(s, c1, b)
            && After(s, c, a + b) == After(s, c1, b)
  {
    hide Available, Reachable, Delivered, Limit, Ended, SectorOf, OffsetIn, ReadFails, AtChainEnd;
    var c1 := After(s, c, a);
    if Ended(s, c) {
      EndedDeliversNothing(s, c, a);
      EndedDeliversNothing(s, c, b);
      EndedDeliversNothing(s, c, a + b);
    } else if Stops(s, c, a) {
      StopIsFinal(s, c, a);
      EndedDeliversNothing(s, c1, b);
      NothingBeyond(s, c, a, b);
    } else {
      FullDelivery(s, c, a);
      ContinuesWhole(s, c, a, b);
      LandCompose(s, c, Limit(c, a), Delivered(s, c1, b));
    }
  }

  /**
   Chunking is invisible.  Two reads one after the other deliver what one read of
   the total delivers, byte for byte, and leave the same cursor.
   */
  lemma ReadsCompose(s: Stream, c: Cursor, a: nat, b: nat)
    requires Sound(s, c)
    requires !ReadFails(s, c, a)
    ensures var c1 := After(s, c, a);
            var k, k1 := Delivered(s, c, a), Delivered(s, c1, b);
            && Delivered(s, c, a + b) == k + k1
            && Content(s, c.position, k + k1) == Content(s, c.position, k) + Content(s, c1.position, k1)
            && After(s, c, a + b) == After(s, c1, b)
  {
    CursorsCompose(s, c, a, b);
    ContentSplit(s, c.position, Delivered(s, c, a), Delivered(s, After(s, c, a), b));
  }

  /** A longer read delivers more only where the shorter one got all it asked for. */
  lemma DeliveredGrows(s: Stream, c: Cursor, a: nat, b: nat)
    requires Unlimited(c) || c.position <= c.size
    ensures Delivered(s, c, a) <= Delivered(s, c, a + b)
    ensures Delivered(s, c, a) < a ==> Delivered(s, c, a + b) == Delivered(s, c, a)
  {
    AvailableSplit(s, c.position, Limit(c, a), Limit(c, a + b) - Limit(c, a));
  }

  /** A read that fails makes every longer one fail at the same place. */
  lemma FailurePersists(s: Stream, c: Cursor, a: nat, b: nat)
    requires Unlimited(c) || c.position <= c.size
    requires ReadFails(s, c, a)
    ensures Delivered(s, c, a + b) == Delivered(s, c, a) && ReadFails(s, c, a + b)
  {
    var k, l := Delivered(s, c, a), Limit(c, a);
    var q := SectorOf(c.position + k);
    AvailableSplit(s, c.position, l, Limit(c, a + b) - l);
    assert s.bad(q) && q > 0 && !Reachable(s, q);
  }

  /** A read whose first part met no unreadable sector fails exactly when the rest does. */
  lemma FailuresCompose(s: Stream, c: Cursor, a: nat, b: nat)
    requires Sound(s, c) && !ReadFails(s, c, a)
    ensures Sound(s, After(s, c, a))
    ensures ReadFails(s, After(s, c, a), b) <==> ReadFails(s, c, a + b)
  {
    hide ReadFails, Delivered, After, Reachable, Ended;
    ReadKeepsSound(s, c, a);
    CursorsCompose(s, c, a, b);
    ReadKeepsSound(s, After(s, c, a), b);
    ReadKeepsSound(s, c, a + b);
  }

  /** Reading `n` from `c` comes to having read `done` and reading the rest from `c1`. */
  predicate Continues(s: Stream, c: Cursor, n: nat, c1: Cursor, done: nat) {
    && (Unlimited(c) || c.position <= c.size)
    && (Unlimited(c1) || c1.position <= c1.size)
    && done <= n
    && c1 == c.(position := c.position + done)
    && Delivered(s, c, n) == done + Delivered(s, c1, n - done)
    && After(s, c, n) == After(s, c1, n - done)
    && (ReadFails(s, c, n) <==> ReadFails(s, c1, n - done))
  }

  /** The next sector exists and can be read, or is not needed yet. */
  predicate GoesOn(s: Stream, p: nat) {
    !(OffsetIn(p) == 0 && (s.ends(SectorOf(p)) || s.bad(SectorOf(p))))
  }

  lemma PieceDelivers(s: Stream, c: Cursor, n: nat, take: nat)
    requires Unlimited(c) || c.position <= c.size
    requires Reachable(s, SectorOf(c.position))
    requires 0 < take <= Limit(c, n) && take <= 512 - OffsetIn(c.position)
    ensures var c1 := c.(position := c.position + take);
            && (Unlimited(c1) || c1.position <= c1.size)
            && Limit(c1, n - take) == Limit(c, n) - take
            && Delivered(s, c, n) == take + Delivered(s, c1, n - take)
  {
    AvailableWithin(s, c.position, take, Limit(c, n));
  }

  lemma PieceReaches(s: Stream, p: nat, take: nat)
    requires Reachable(s, SectorOf(p))
    requires 0 < take <= 512 - OffsetIn(p)
    ensures Reachable(s, SectorOf(p + take)) <==> GoesOn(s, p + take)
    ensures OffsetIn(p + take) == 0 ==> SectorOf(p + take) == SectorOf(p) + 1
    ensures OffsetIn(p + take) != 0 ==> SectorOf(p + take) == SectorOf(p)
  {
    if take == 512 - OffsetIn(p) {
      assert SectorOf(p + take) == SectorOf(p) + 1;
    } else {
      assert SectorOf(p + take) == SectorOf(p);
    }
  }

  /** One pass of the read loop that finds more: the read continues behind the piece. */
  lemma PieceContinues(s: Stream, c: Cursor, n: nat, take: nat)
    requires Unlimited(c) || c.position <= c.size
    requires Reachable(s, SectorOf(c.position))
    requires 0 < take <= Limit(c, n) && take <= 512 - OffsetIn(c.position)
    requires GoesOn(s, c.position + take)
    ensures Land(s, c, take) == c.(position := c.position + take)
    ensures Continues(s, c, n, Land(s, c, take), take)
    ensures Reachable(s, SectorOf(c.position + take))
  {
    hide Available, Reachable, SectorOf, OffsetIn, Delivered, ReadFails, Land;
    var c1 := c.(position := c.position + take);
    PieceDelivers(s, c, n, take);
    PieceReaches(s, c.position, take);
    LandGoesOn(s, c, take);
    LandCompose(s, c, take, Delivered(s, c1, n - take));
    FailsBehindPiece(s, c, n, take);
  }

  lemma LandGoesOn(s: Stream, c: Cursor, take: nat)
    requires GoesOn(s, c.position + take)
    ensures Land(s, c, take) == c.(position := c.position + take) && !AtChainEnd(s, c.position + take)
  {
  }

  lemma FailsBehindPiece(s: Stream, c: Cursor, n: nat, take: nat)
    requires (Unlimited(c) || c.position <= c.size) && 0 < take <= n
    requires GoesOn(s, c.position + take)
    requires var c1 := c.(position := c.position + take);
             && (Unlimited(c1) || c1.position <= c1.size)
             && Delivered(s, c, n) == take + Delivered(s, c1, n - take)
    ensures ReadFails(s, c, n) <==> ReadFails(s, c.(position := c.position + take), n - take)
  {
    hide Delivered;
  }

  /** One pass that finds no more: the piece is all the read delivers. */
  lemma PieceIsLast(s: Stream, c: Cursor, n: nat, take: nat)
    requires Unlimited(c) || c.position <= c.size
    requires Reachable(s, SectorOf(c.position))
    requires 0 < take <= Limit(c, n) && take <= 512 - OffsetIn(c.position)
    requires !GoesOn(s, c.position + take)
    ensures Delivered(s, c, n) == take && After(s, c, n) == Land(s, c, take)
    ensures !Reachable(s, SectorOf(c.position + take))
    ensures SectorOf(c.position + take) == SectorOf(c.position) + 1
    ensures ReadFails(s, c, n) <==> !s.ends(SectorOf(c.position + take))
    ensures Sound(s, Land(s, c, take)) <==> s.ends(SectorOf(c.position + take))
  {
    hide SectorOf, OffsetIn;
    PieceDelivers(s, c, n, take);
    PieceReaches(s, c.position, take);
  }

  lemma ContinuesFurther(s: Stream, c: Cursor, n: nat, c1: Cursor, done: nat, take: nat)
    requires Continues(s, c, n, c1, done)
    requires Reachable(s, SectorOf(c1.position))
    requires 0 < take <= Limit(c1, n - done) && take <= 512 - OffsetIn(c1.position)
    requires GoesOn(s, c1.position + take)
    ensures var c2 := Land(s, c1, take);
            && c2 == c.(position := c.position + (done + take))
            && done + take <= n
            && (Unlimited(c2) || c2.position <= c2.size)
            && Continues(s, c, n, c2, done + take)
            && Limit(c2, n - (done + take)) == Limit(c1, n - done) - take
            && Reachable(s, SectorOf(c2.position))
  {
    hide Available, Reachable, SectorOf, OffsetIn, GoesOn, Land, Delivered, After, ReadFails, Limit;
    PieceContinues(s, c1, n - done, take);
    PieceDelivers(s, c1, n - done, take);
  }

  lemma ContinuesToLast(s: Stream, c: Cursor, n: nat, c1: Cursor, done: nat, take: nat)
    requires Continues(s, c, n, c1, done)
    requires Reachable(s, SectorOf(c1.position))
    requires 0 < take <= Limit(c1, n - done) && take <= 512 - OffsetIn(c1.position)
    requires !GoesOn(s, c1.position + take)
    ensures Delivered(s, c, n) == done + take
    ensures After(s, c, n) == Land(s, c1, take)
    ensures Sound(s, Land(s, c1, take)) <==> !ReadFails(s, c, n)
    ensures !Reachable(s, SectorOf(c1.position + take))
    ensures SectorOf(c1.position + take) == SectorOf(c1.position) + 1
  {
    hide Available, Reachable, SectorOf, OffsetIn, GoesOn, Land, Delivered, After, ReadFails, Limit, Sound;
    PieceIsLast(s, c1, n - done, take);
  }

  lemma ContinuesToEnd(s: Stream, c: Cursor, n: nat, c1: Cursor, done: nat)
    requires Continues(s, c, n, c1, done)
    requires Limit(c1, n - done) == 0
    ensures Delivered(s, c, n) == done && After(s, c, n) == c1 && !ReadFails(s, c, n)
  {
  }
}
