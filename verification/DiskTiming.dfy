/** How long the simulated disk of machine/disk.cc takes: seek, rotation, transfer and track buffer. */
module DiskTiming {
  const SECTORS_PER_TRACK := 32
  const SEEK_TIME := 500
  const ROTATION_TIME := 500

  /** bufferInit is the sector boundary at which the track buffer began to fill. */
  datatype Disk = Disk(lastSector: nat, bufferInit: nat)

  function Seek(d: Disk, newSector: nat): nat {
    var newTrack, oldTrack := newSector / SECTORS_PER_TRACK, d.lastSector / SECTORS_PER_TRACK;
    (if newTrack >= oldTrack then newTrack - oldTrack else oldTrack - newTrack) * SEEK_TIME
  }

  /** From the end of the seek to the next sector boundary. */
  function Rotation(d: Disk, newSector: nat, now: nat): nat {
    var over := (now + Seek(d, newSector)) % ROTATION_TIME;
    if over > 0 then ROTATION_TIME - over else 0
  }

  function ModuloDiff(to: nat, from: nat): nat {
    (to % SECTORS_PER_TRACK - from % SECTORS_PER_TRACK + SECTORS_PER_TRACK) % SECTORS_PER_TRACK
  }

  function TimeAfter(d: Disk, newSector: nat, now: nat): nat { now + Seek(d, newSector) + Rotation(d, newSector, now) }

  predicate Buffered(d: Disk, newSector: nat, writing: bool, now: nat) {
    && !writing && Seek(d, newSector) == 0
    && TimeAfter(d, newSector, now) >= d.bufferInit
    && (TimeAfter(d, newSector, now) - d.bufferInit) / ROTATION_TIME > ModuloDiff(newSector, d.bufferInit / ROTATION_TIME)
  }

  /** Latency when the track buffer cannot answer. */
  function Unbuffered(d: Disk, newSector: nat, now: nat): nat {
    Seek(d, newSector) + Rotation(d, newSector, now)
    + ModuloDiff(newSector, TimeAfter(d, newSector, now) / ROTATION_TIME) * ROTATION_TIME + ROTATION_TIME
  }

  function Latency(d: Disk, newSector: nat, writing: bool, now: nat): nat {
    if Buffered(d, newSector, writing, now) then ROTATION_TIME else Unbuffered(d, newSector, now)
  }

  function UpdateLast(d: Disk, newSector: nat, now: nat): Disk {
    Disk(newSector, if Seek(d, newSector) != 0 then TimeAfter(d, newSector, now) else d.bufferInit)
  }

  // ---- what the times mean: the head passes one sector per RotationTime ----

  /** At time b the head is at a boundary and sector's turn begins. */
  predicate Begins(b: nat, sector: nat) {
    b % ROTATION_TIME == 0 && b / ROTATION_TIME % SECTORS_PER_TRACK == sector % SECTORS_PER_TRACK
  }

  /** b is the first time from on at which the sector's turn begins. */
  ghost predicate FirstTurn(b: nat, from: nat, sector: nat) {
    from <= b && Begins(b, sector) && forall c :: from <= c && Begins(c, sector) ==> b <= c
  }

  lemma NextBoundary(d: Disk, newSector: nat, now: nat)
    ensures var after := TimeAfter(d, newSector, now);
            && after % ROTATION_TIME == 0
            && now + Seek(d, newSector) <= after < now + Seek(d, newSector) + ROTATION_TIME
  {
  }

  /** From a boundary, ModuloDiff sectors go by before the wanted one begins, and no fewer. */
  lemma TurnFromBoundary(boundary: nat, sector: nat)
    requires boundary % ROTATION_TIME == 0
    ensures var diff := ModuloDiff(sector, boundary / ROTATION_TIME);
            diff < SECTORS_PER_TRACK && FirstTurn(boundary + diff * ROTATION_TIME, boundary, sector)
  {
    var n := boundary / ROTATION_TIME;
    var diff := ModuloDiff(sector, n);
    var b := boundary + diff * ROTATION_TIME;
    assert b == (n + diff) * ROTATION_TIME;
    assert b / ROTATION_TIME == n + diff;
    DiffReaches(sector, n, diff);
    forall c | boundary <= c && Begins(c, sector)
      ensures b <= c
    {
      var m := c / ROTATION_TIME;
      assert c == m * ROTATION_TIME && boundary == n * ROTATION_TIME;
      DiffIsLeast(sector, n, m);
    }
  }

  lemma DiffReaches(sector: nat, n: nat, diff: nat)
    requires diff == ModuloDiff(sector, n)
    ensures (n + diff) % SECTORS_PER_TRACK == sector % SECTORS_PER_TRACK
  {
  }

  lemma DiffIsLeast(sector: nat, n: nat, m: nat)
    requires n <= m && m % SECTORS_PER_TRACK == sector % SECTORS_PER_TRACK
    ensures m >= n + ModuloDiff(sector, n)
  {
    var a, b, r := n % SECTORS_PER_TRACK, sector % SECTORS_PER_TRACK, m / SECTORS_PER_TRACK - n / SECTORS_PER_TRACK;
    assert m - n == SECTORS_PER_TRACK * r + b - a;
    if a <= b {
      DiffIs(sector, n, b - a);
    } else {
      DiffIs(sector, n, b - a + SECTORS_PER_TRACK);
    }
  }

  lemma DiffIs(sector: nat, n: nat, d: nat)
    requires d < SECTORS_PER_TRACK
    requires d == sector % SECTORS_PER_TRACK - n % SECTORS_PER_TRACK || d == sector % SECTORS_PER_TRACK - n % SECTORS_PER_TRACK + SECTORS_PER_TRACK
    ensures ModuloDiff(sector, n) == d
  {
  }

  /**
   Without the buffer, the transfer begins at the first turn of the sector after the seek and
   takes one RotationTime; so the latency is positive and below seek plus 33 rotations.
   */
  lemma UnbufferedIsFirstTurn(d: Disk, newSector: nat, now: nat)
    ensures var start := now + Unbuffered(d, newSector, now) - ROTATION_TIME;
            start >= 0 && FirstTurn(start, now + Seek(d, newSector), newSector)
    ensures 0 < Unbuffered(d, newSector, now) < Seek(d, newSector) + (SECTORS_PER_TRACK + 1) * ROTATION_TIME
  {
    hide Begins, Seek, Rotation, ModuloDiff;
    var after := TimeAfter(d, newSector, now);
    NextBoundary(d, newSector, now);
    TurnFromBoundary(after, newSector);
    var start := now + Unbuffered(d, newSector, now) - ROTATION_TIME;
    forall c | now + Seek(d, newSector) <= c && Begins(c, newSector)
      ensures start <= c
    {
      BeginsAtBoundary(c, newSector, after, now + Seek(d, newSector));
    }
  }

  lemma BeginsAtBoundary(c: nat, sector: nat, after: nat, from: nat)
    requires Begins(c, sector) && after % ROTATION_TIME == 0 && from <= after < from + ROTATION_TIME && from <= c
    ensures after <= c
  {
    assert c == c / ROTATION_TIME * ROTATION_TIME && after == after / ROTATION_TIME * ROTATION_TIME;
  }

  /**
   The track buffer answers a read on the current track exactly if some whole turn of the
   sector, since the buffer began to fill, is over by the next boundary; and it is never slower.
   */
  lemma BufferedIffPassed(d: Disk, newSector: nat, writing: bool, now: nat)
    requires d.bufferInit % ROTATION_TIME == 0 && d.bufferInit <= now
    ensures Buffered(d, newSector, writing, now) <==>
              && !writing && Seek(d, newSector) == 0
              && exists b :: d.bufferInit <= b && Begins(b, newSector) && b + ROTATION_TIME <= TimeAfter(d, newSector, now)
    ensures Latency(d, newSector, writing, now) <= Unbuffered(d, newSector, now)
  {
    hide Begins, Seek, Rotation, ModuloDiff;
    var after := TimeAfter(d, newSector, now);
    NextBoundary(d, newSector, now);
    TurnFromBoundary(d.bufferInit, newSector);
    var diff := ModuloDiff(newSector, d.bufferInit / ROTATION_TIME);
    var first := d.bufferInit + diff * ROTATION_TIME;
    WholeTurns(d.bufferInit, after, diff);
    if Buffered(d, newSector, writing, now) {
      assert Begins(first, newSector) && first + ROTATION_TIME <= after;
    }
  }

  lemma WholeTurns(init: nat, after: nat, diff: nat)
    requires init % ROTATION_TIME == 0 && after % ROTATION_TIME == 0 && init <= after
    ensures (after - init) / ROTATION_TIME > diff <==> init + diff * ROTATION_TIME + ROTATION_TIME <= after
  {
    var n := (after - init) / ROTATION_TIME;
    assert init == init / ROTATION_TIME * ROTATION_TIME && after == after / ROTATION_TIME * ROTATION_TIME;
    assert after - init == n * ROTATION_TIME;
  }

  // ---- over every run of requests ----

  /** A request issued at a time not before the previous one completed. */
  datatype Request = Request(sector: nat, writing: bool, wait: nat)

  datatype Timing = Timing(disk: Disk, free: nat)

  function Issue(s: Timing, r: Request): Timing {
    var now := s.free + r.wait;
    Timing(UpdateLast(s.disk, r.sector, now), now + Latency(s.disk, r.sector, r.writing, now))
  }

  function Issued(s: Timing, requests: seq<Request>): Timing {
    if requests == [] then s else Issue(Issued(s, requests[..|requests| - 1]), requests[|requests| - 1])
  }

  predicate TimingOk(s: Timing) { s.disk.bufferInit % ROTATION_TIME == 0 && s.disk.bufferInit <= s.free }

  lemma IssueKeepsOk(s: Timing, r: Request)
    requires TimingOk(s)
    ensures TimingOk(Issue(s, r))
  {
    hide ModuloDiff, Rotation;
    NextBoundary(s.disk, r.sector, s.free + r.wait);
  }

  /** So at every request of every run the buffer's start is a past boundary, as the two results above ask. */
  lemma {:induction false} RunKeepsOk(requests: seq<Request>)
    ensures TimingOk(Issued(Timing(Disk(0, 0), 0), requests))
  {
    hide Issue, TimingOk;
    if requests == [] {
      StartOk();
    } else {
      RunKeepsOk(requests[..|requests| - 1]);
      IssueKeepsOk(Issued(Timing(Disk(0, 0), 0), requests[..|requests| - 1]), requests[|requests| - 1]);
    }
  }

  lemma StartOk()
    ensures TimingOk(Timing(Disk(0, 0), 0))
  {
  }

  function After(requests: seq<Request>): Timing { Issued(Timing(Disk(0, 0), 0), requests) }

  /** The track the head is on after the requests. */
  function TrackAfter(requests: seq<Request>): nat {
    if requests == [] then 0 else requests[|requests| - 1].sector / SECTORS_PER_TRACK
  }

  /** In every run, a seek takes SeekTime for each track between the previous request and this one, either way. */
  lemma SeekIsDistance(requests: seq<Request>, newSector: nat)
    ensures var seek, moved := Seek(After(requests).disk, newSector), newSector / SECTORS_PER_TRACK - TrackAfter(requests);
            if moved >= 0 then seek == SEEK_TIME * moved else seek == SEEK_TIME * -moved
  {
    hide Latency, TimeAfter;
  }

  /** The k-th request is for another track than the one before it. */
  predicate Moves(requests: seq<Request>, k: nat)
    requires k < |requests|
  {
    requests[k].sector / SECTORS_PER_TRACK != TrackAfter(requests[..k])
  }

  lemma SeekIffMoves(requests: seq<Request>, k: nat)
    requires k < |requests|
    ensures Moves(requests, k) <==> Seek(After(requests[..k]).disk, requests[k].sector) != 0
  {
    hide Latency, TimeAfter, Seek;
    SeekIsDistance(requests[..k], requests[k].sector);
  }

  /**
   In every run, the track buffer began to fill at the first sector boundary from the end of the
   latest seek on.
   */
  lemma {:induction false} BufferFillsSinceSeek(requests: seq<Request>, k: nat)
    requires k < |requests| && Moves(requests, k) && forall m :: k < m < |requests| ==> !Moves(requests, m)
    ensures var before := After(requests[..k]);
            var arrival, init := before.free + requests[k].wait + Seek(before.disk, requests[k].sector), After(requests).disk.bufferInit;
            init % ROTATION_TIME == 0 && arrival <= init < arrival + ROTATION_TIME
  {
    hide Latency, TimeAfter, Seek, Moves;
    var n := |requests| - 1;
    assert requests == requests[..n] + [requests[n]];
    SeekIffMoves(requests, n);
    if k == n {
      NextBoundary(After(requests[..n]).disk, requests[n].sector, After(requests[..n]).free + requests[n].wait);
    } else {
      assert requests[..n][..k] == requests[..k];
      forall m | k <= m < n
        ensures Moves(requests[..n], m) == Moves(requests, m)
      {
        SameMoves(requests, n, m);
      }
      BufferFillsSinceSeek(requests[..n], k);
    }
  }

  lemma SameMoves(requests: seq<Request>, n: nat, m: nat)
    requires m < n <= |requests|
    ensures Moves(requests[..n], m) == Moves(requests, m)
  {
    assert requests[..n][..m] == requests[..m];
  }

  lemma {:induction false} BufferFillsSinceStart(requests: seq<Request>)
    requires forall m :: 0 <= m < |requests| ==> !Moves(requests, m)
    ensures After(requests).disk.bufferInit == 0
  {
    hide Latency, TimeAfter, Seek, Moves;
    if requests != [] {
      var n := |requests| - 1;
      SeekIffMoves(requests, n);
      forall m | 0 <= m < n
        ensures !Moves(requests[..n], m)
      {
        SameMoves(requests, n, m);
      }
      BufferFillsSinceStart(requests[..n]);
    }
  }
}
