/**
 A file or directory as the sectors it is read in, one after the other, and the
 byte sequence they make up.  Nothing here knows about cursors or buffers.
 */
module SectorStream {
  import opened Machine

  /** A sector is 512 bytes; the number stays literal so that division by it is linear. */
  type Sector = s: seq<byte> | |s| == 512 witness seq(512, _ => 0)

  /**
   Sector `q` of the stream is `sector(q)`.  `ends(q)` says that the stream has no
   sector `q` because its chain is over, `bad(q)` that the drive cannot read it.
   */
  datatype Stream = Stream(sector: nat -> Sector, ends: nat -> bool, bad: nat -> bool)

  /** The sector of the stream that holds position `p`. */
  function SectorOf(p: nat): nat {
    p / 512
  }

  /** Where position `p` lies in its sector. */
  function OffsetIn(p: nat): nat {
    p % 512
  }

  /** Streaming from the first sector gets as far as holding sector `q`. */
  predicate Reachable(s: Stream, q: nat) {
    q == 0 || (Reachable(s, q - 1) && !s.ends(q) && !s.bad(q))
  }

  function ByteAt(s: Stream, p: nat): byte {
    s.sector(SectorOf(p))[OffsetIn(p)]
  }

  /** Bytes `p .. p+n` of the stream. */
  function Content(s: Stream, p: nat, n: nat): (bytes: seq<byte>)
    ensures |bytes| == n
  {
    seq<byte>(n, i requires 0 <= i < n => ByteAt(s, p + i))
  }

  /** How many of the `n` bytes from position `p` lie in reachable sectors. */
  function Available(s: Stream, p: nat, n: nat): (k: nat)
    ensures k <= n
    decreases n
  {
    if n == 0 || !Reachable(s, SectorOf(p)) then 0 else 1 + Available(s, p + 1, n - 1)
  }

  lemma ContentSplit(s: Stream, p: nat, a: nat, b: nat)
    ensures Content(s, p, a + b) == Content(s, p, a) + Content(s, p + a, b)
  {
  }

  lemma {:induction false} ReachableMonotone(s: Stream, q: nat, r: nat)
    requires q <= r && Reachable(s, r)
    ensures Reachable(s, q)
    decreases r
  {
    if q < r {
      ReachableMonotone(s, q, r - 1);
    }
  }

  /** Everything between `p` and a position in the same reachable sector is available. */
  lemma {:induction false} AvailableWithin(s: Stream, p: nat, take: nat, n: nat)
    requires take <= n && take <= 512 - OffsetIn(p)
    requires Reachable(s, SectorOf(p))
    ensures Available(s, p, n) == take + Available(s, p + take, n - take)
    decreases take
  {
    if take > 1 {
      assert SectorOf(p + 1) == SectorOf(p);
      AvailableWithin(s, p + 1, take - 1, n - 1);
    }
  }

  /** Either all of the first `a` bytes are available and counting goes on, or it stops there. */
  lemma {:induction false} AvailableSplit(s: Stream, p: nat, a: nat, b: nat)
    ensures Available(s, p, a) == a ==>
              Available(s, p, a + b) == a + Available(s, p + a, b)
    ensures Available(s, p, a) < a ==> Available(s, p, a + b) == Available(s, p, a)
    decreases a
  {
    if a > 0 && Reachable(s, SectorOf(p)) {
      AvailableSplit(s, p + 1, a - 1, b);
    }
  }

  /** A short count stops on a sector boundary, in front of an unreachable sector. */
  lemma {:induction false} AvailableStops(s: Stream, p: nat, n: nat)
    requires Reachable(s, SectorOf(p))
    ensures var k := Available(s, p, n);
            && (k > 0 ==> Reachable(s, SectorOf(p + k - 1)))
            && (k < n ==> k > 0 && OffsetIn(p + k) == 0 && !Reachable(s, SectorOf(p + k)))
    decreases n
  {
    if n > 0 {
      if Reachable(s, SectorOf(p + 1)) {
        AvailableStops(s, p + 1, n - 1);
        assert Available(s, p, n) == 1 + Available(s, p + 1, n - 1);
      } else {
        assert Available(s, p + 1, n - 1) == 0;
      }
    }
  }

  /** Where a position stands: inside its last byte's sector, or at the start of the next. */
  lemma LastByteSector(p: nat)
    requires p > 0
    ensures OffsetIn(p) != 0 ==> SectorOf(p - 1) == SectorOf(p)
    ensures OffsetIn(p) == 0 ==> SectorOf(p) > 0 && SectorOf(p - 1) == SectorOf(p) - 1
  {
  }

  /** After `k > 0` available bytes, reachability ahead depends on the next sector alone. */
  lemma AvailableLands(s: Stream, p: nat, n: nat)
    requires Reachable(s, SectorOf(p))
    requires Available(s, p, n) > 0
    ensures var end := p + Available(s, p, n);
            var q := SectorOf(end);
            if OffsetIn(end) != 0 then Reachable(s, q)
            else q > 0 && Reachable(s, q - 1) &&
                 (Reachable(s, q) <==> !s.ends(q) && !s.bad(q))
  {
    AvailableStops(s, p, n);
    LastByteSector(p + Available(s, p, n));
  }

  /** The available count is the largest prefix whose last byte is in a reachable sector. */
  lemma {:induction false} AvailableIsMaximal(s: Stream, p: nat, n: nat, m: nat)
    requires 0 < m <= n && Reachable(s, SectorOf(p + m - 1))
    ensures m <= Available(s, p, n)
    decreases m
  {
    ReachableMonotone(s, SectorOf(p), SectorOf(p + m - 1));
    if m > 1 {
      AvailableIsMaximal(s, p + 1, n - 1, m - 1);
    }
  }

  lemma ByteInSector(s: Stream, p: nat, i: nat)
    requires OffsetIn(p) + i < 512
    ensures ByteAt(s, p + i) == s.sector(SectorOf(p))[OffsetIn(p) + i]
  {
    assert SectorOf(p + i) == SectorOf(p) && OffsetIn(p + i) == OffsetIn(p) + i;
  }

  /** A piece of one sector is the content at that place. */
  lemma PieceIsContent(s: Stream, p: nat, n: nat)
    requires n <= 512 - OffsetIn(p)
    ensures s.sector(SectorOf(p))[OffsetIn(p)..OffsetIn(p) + n] == Content(s, p, n)
  {
    var piece := s.sector(SectorOf(p))[OffsetIn(p)..OffsetIn(p) + n];
    forall i | 0 <= i < n
      ensures piece[i] == Content(s, p, n)[i]
    {
      ByteInSector(s, p, i);
      assert Content(s, p, n)[i] == ByteAt(s, p + i);
    }
  }

  /** Putting one more piece behind what has been copied already. */
  lemma PieceAppends(s: Stream, p: nat, done: nat, take: nat, was: seq<byte>, before: seq<byte>, after: seq<byte>)
    requires done + take <= |was|
    requires before == Content(s, p, done) + was[done..]
    requires after == before[..done] + Content(s, p + done, take) + before[done + take..]
    ensures after == Content(s, p, done + take) + was[done + take..]
  {
    ContentSplit(s, p, done, take);
    assert before[..done] == Content(s, p, done);
    assert before[done + take..] == was[done + take..];
  }
}
