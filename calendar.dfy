/**
 * The hourly reservation bitmap of one space (class Space::Time).
 *
 * A calendar records, for every whole hour after its origin, whether that
 * hour is booked: hour h is booked when bit h % 32 of stored word h / 32 is
 * set. The word sequence grows lazily with zero words and never shrinks.
 * Booking is check-then-set: a read-only pass over every requested hour,
 * then a commit pass that sets the boundary words bit by bit and writes
 * all-ones into fully covered interior words. Cancelling clears the range
 * the same way, without looking at what was there.
 *
 * Timestamps are integer seconds; the wall clock is a parameter (`now`).
 * The price per hour is an integer.
 */
module Calendar {

  /** Seconds in one hour. */
  const HourSeconds: nat := 3600

  /**
   * Hours recorded per stored word. The source stores 64-bit words, but its
   * bit macros shift an `int` 1, so only bits 0..31 of a word are ever read
   * meaningfully (bit 31 spills into the upper half): each word is modelled
   * as its 32 low bits.
   */
  const W: nat := 32

  /**
   * One stored word: position i holds bit i. GetBit(w, i) is w[i];
   * SetBit and ClearBit are w[i := true] and w[i := false].
   */
  type Word = w: seq<bool> | |w| == W witness seq(32, _ => false)

  /**
   * The word the commit pass writes into a fully covered block: every bit
   * set when booking (`~0`), none when cancelling (`0`).
   */
  function Fill(booked: bool): Word
  {
    seq(W, _ => booked)
  }

  /** The zero word, appended when the sequence grows. */
  const NoHours: Word := Fill(false)

  function Max(a: int, b: int): int { if a < b then b else a }

  // ---------------------------------------------------------------------
  // Hours of a word sequence.
  // ---------------------------------------------------------------------

  /** Hour h after the origin is booked in ts; words not yet stored are free. */
  predicate Booked(ts: seq<Word>, h: nat)
  {
    h / W < |ts| && ts[h / W][h % W]
  }

  /** Block k, bit j is hour k * W + j. */
  lemma HourOfBlockBit(k: nat, j: nat)
    requires j < W
    ensures (k * W + j) / W == k && (k * W + j) % W == j
  {
  }

  /** Hour h lies in block k exactly when it is one of the block's W hours. */
  lemma BlockOfHour(h: nat, k: nat)
    ensures h / W == k <==> k * W <= h < k * W + W
  {
  }

  /** Setting (booked) or clearing bit j of block k changes hour k * W + j and no other. */
  lemma {:induction false} HoursWithBit(ts: seq<Word>, k: nat, j: nat, booked: bool)
    requires k < |ts| && j < W
    ensures forall h: nat :: Booked(ts[k := ts[k][j := booked]], h) == (if h == k * W + j then booked else Booked(ts, h))
  {
    forall h: nat
      ensures Booked(ts[k := ts[k][j := booked]], h) == if h == k * W + j then booked else Booked(ts, h)
    {
      HourOfBlockBit(k, j);
      if h / W == k {
        assert h == k * W + h % W;
      }
    }
  }

  /** Writing all-ones (booked) or zero into block k sets or clears exactly its W hours. */
  lemma {:induction false} HoursWithWord(ts: seq<Word>, k: nat, booked: bool)
    requires k < |ts|
    ensures var after := ts[k := Fill(booked)];
      forall h: nat :: Booked(after, h) == (if k * W <= h < k * W + W then booked else Booked(ts, h))
  {
    var after := ts[k := Fill(booked)];
    forall h: nat
      ensures Booked(after, h) == (if k * W <= h < k * W + W then booked else Booked(ts, h))
    {
      BlockOfHour(h, k);
      if h / W == k {
        assert Fill(booked)[h % W] == booked;
      } else if h / W < |ts| {
        assert after[h / W] == ts[h / W];
      }
    }
  }

  /** Appending zero words books no hour and frees none. */
  lemma {:induction false} HoursOfZeroExtension(ts: seq<Word>, n: nat)
    ensures forall h: nat :: Booked(ts + seq(n, _ => NoHours), h) == Booked(ts, h)
  {
    forall h: nat
      ensures Booked(ts + seq(n, _ => NoHours), h) == Booked(ts, h)
    {
      if h / W < |ts| {
        assert (ts + seq(n, _ => NoHours))[h / W] == ts[h / W];
      }
    }
  }

  // ---------------------------------------------------------------------
  // Time arithmetic.
  // ---------------------------------------------------------------------

  /**
   * The origin the rate-only constructor derives from a clock reading:
   * the next full hour strictly after `now` (a reading already on the hour
   * moves a whole hour on).
   */
  function RoundUpToHour(now: nat): (origin: nat)
    ensures origin % HourSeconds == 0
    ensures now < origin <= now + HourSeconds
  {
    now + (HourSeconds - now % HourSeconds)
  }

  /**
   * The hour after `origin` that timestamp t falls in, rounding down: t lies
   * in [origin + h * 3600, origin + (h + 1) * 3600). Negative for a t before
   * the origin.
   */
  function HourOffset(t: int, origin: int): (h: int)
    ensures origin + h * HourSeconds <= t < origin + (h + 1) * HourSeconds
  {
    (t - origin) / HourSeconds
  }

  // ---------------------------------------------------------------------
  // The read-only conflict pass.
  // ---------------------------------------------------------------------

  /**
   * Whether any hour of [s, e] is booked in ts. The loops follow the
   * source's shape (the start block from bit s % W, the interior blocks
   * whole, the end block up to bit e % W), with the interior loop reading
   * the block it is at: the source reads the start block there instead,
   * so that interior blocks are never examined (see ConflictAsWritten).
   */
  method FindConflict(ts: seq<Word>, s: nat, e: nat) returns (conflict: bool)
    requires s <= e && e / W < |ts|
    ensures conflict <==> exists h: nat :: s <= h <= e && Booked(ts, h)
  {
    var first, last := s / W, e / W;
    if first == last {
      for i := s % W to e % W + 1
        invariant forall h: nat :: s <= h < first * W + i ==> !Booked(ts, h)
      {
        if ts[first][i] {
          HourOfBlockBit(first, i);
          assert Booked(ts, first * W + i);
          return true;
        }
        HourOfBlockBit(first, i);
      }
      return false;
    }
    for i := s % W to W
      invariant forall h: nat :: s <= h < first * W + i ==> !Booked(ts, h)
    {
      HourOfBlockBit(first, i);
      if ts[first][i] {
        assert Booked(ts, first * W + i);
        return true;
      }
    }
    var k := first + 1;
    while k != last
      invariant first < k <= last
      invariant forall h: nat :: s <= h < k * W ==> !Booked(ts, h)
    {
      for i := 0 to W
        invariant forall h: nat :: s <= h < k * W + i ==> !Booked(ts, h)
      {
        HourOfBlockBit(k, i);
        if ts[k][i] {
          assert Booked(ts, k * W + i);
          return true;
        }
      }
      k := k + 1;
    }
    for i := 0 to e % W + 1
      invariant forall h: nat :: s <= h < last * W + i ==> !Booked(ts, h)
    {
      HourOfBlockBit(last, i);
      if ts[last][i] {
        assert Booked(ts, last * W + i);
        return true;
      }
    }
    return false;
  }

  // ---------------------------------------------------------------------
  // The calendar object.
  // ---------------------------------------------------------------------

  class Time {
    /** originTime: the instant hour 0 starts at; fixed at construction. */
    const origin: int
    /** dirhamsPerHour, the price of one booked hour. */
    var rate: int
    /** times: the stored words, W hours each. */
    var times: seq<Word>

    /** Hour h after the origin is booked. */
    ghost predicate Reserved(h: nat)
      reads this
    {
      Booked(times, h)
    }

    /** Time(): the origin is the clock reading itself, unrounded, at price 0. */
    constructor (now: int)
      ensures origin == now && rate == 0 && times == []
    {
      origin := now;
      rate := 0;
      times := [];
    }

    /** Time(rate): the origin is the clock reading rounded up to the next hour. */
    constructor WithRate(rate: int, now: nat)
      ensures origin == RoundUpToHour(now) && this.rate == rate && times == []
    {
      origin := RoundUpToHour(now);
      this.rate := rate;
      times := [];
    }

    /** Time(rate, origin): a calendar with a given origin, as restored from storage. */
    constructor Restore(rate: int, origin: int)
      ensures this.origin == origin && this.rate == rate && times == []
    {
      this.origin := origin;
      this.rate := rate;
      times := [];
    }

    method SetRate(rate: int)
      modifies this
      ensures this.rate == rate && times == old(times)
    {
      this.rate := rate;
    }

    /** SetBulkTimes: replace the stored words wholesale (used when loading). */
    method SetBulkTimes(words: seq<Word>)
      modifies this
      ensures times == words && rate == old(rate)
      ensures forall h: nat :: Reserved(h) == Booked(words, h)
    {
      times := words;
    }

    /** GetTimes: the stored words, which describe exactly the booked hours. */
    function GetTimes(): (words: seq<Word>)
      reads this
      ensures |words| == |times|
      ensures forall h: nat :: Booked(words, h) == Reserved(h)
    {
      times
    }

    /** Append zero words until block k exists (the push_back loop). */
    method GrowTo(k: nat)
      modifies this
      ensures rate == old(rate)
      ensures |times| == Max(|old(times)|, k + 1)
      ensures times[..|old(times)|] == old(times)
      ensures forall i :: |old(times)| <= i < |times| ==> times[i] == NoHours
      ensures forall h: nat :: Reserved(h) == old(Reserved(h))
    {
      ghost var before := times;
      while |times| <= k
        invariant rate == old(rate)
        invariant |before| <= |times| <= Max(|before|, k + 1)
        invariant times == before + seq(|times| - |before|, _ => NoHours)
      {
        times := times + [NoHours];
      }
      HoursOfZeroExtension(before, |times| - |before|);
    }

    /** Set (booked) or clear bits lo..hi of block k, one bit at a time. */
    method MarkBits(k: nat, lo: nat, hi: nat, booked: bool)
      requires k < |times| && lo <= hi < W
      modifies this
      ensures rate == old(rate) && |times| == |old(times)|
      ensures forall h: nat :: Reserved(h) == (if k * W + lo <= h <= k * W + hi then booked else old(Reserved(h)))
    {
      for i := lo to hi + 1
        invariant rate == old(rate) && |times| == |old(times)|
        invariant forall h: nat :: Reserved(h) == (if k * W + lo <= h < k * W + i then booked else old(Reserved(h)))
      {
        HoursWithBit(times, k, i, booked);
        times := times[k := times[k][i := booked]];
      }
    }

    /** Write all-ones (booked) or zero into blocks lo..hi-1. */
    method MarkWords(lo: nat, hi: nat, booked: bool)
      requires lo <= hi <= |times|
      modifies this
      ensures rate == old(rate) && |times| == |old(times)|
      ensures forall h: nat :: Reserved(h) == (if lo * W <= h < hi * W then booked else old(Reserved(h)))
    {
      for k := lo to hi
        invariant rate == old(rate) && |times| == |old(times)|
        invariant forall h: nat :: Reserved(h) == (if lo * W <= h < k * W then booked else old(Reserved(h)))
      {
        HoursWithWord(times, k, booked);
        times := times[k := Fill(booked)];
      }
    }

    /** Set (booked) or clear every hour of [s, e], block by block. */
    method MarkRange(s: nat, e: nat, booked: bool)
      requires s <= e && e / W < |times|
      modifies this
      ensures rate == old(rate) && |times| == |old(times)|
      ensures forall h: nat :: Reserved(h) == (if s <= h <= e then booked else old(Reserved(h)))
    {
      if s / W == e / W {
        MarkBits(s / W, s % W, e % W, booked);
      } else {
        MarkBits(s / W, s % W, W - 1, booked);
        MarkWords(s / W + 1, e / W, booked);
        MarkBits(e / W, 0, e % W, booked);
      }
    }

    /**
     * AddReservation: book the hours from the one containing `start` to the
     * one containing `end`, both included, and return the price.
     *
     * The source also rejects `startHours < 0`, a test its unsigned hour
     * type makes dead; here a start before the origin is rejected as that
     * test intends. The conflict pass examines every requested hour.
     */
    method AddReservation(start: int, end: int) returns (ok: bool, price: int)
      modifies this
      ensures rate == old(rate)
      ensures var s, e := HourOffset(start, origin), HourOffset(end, origin);
        if e < s || s < 0 then
          !ok && price == 0 && times == old(times)
        else
          && |times| == Max(|old(times)|, e / W + 1)
          && (ok <==> forall h: nat :: s <= h <= e ==> !old(Reserved(h)))
          && price == (if ok then rate * (e - s + 1) else 0)
          && (forall h: nat :: Reserved(h) == (old(Reserved(h)) || (ok && s <= h <= e)))
          && (!ok ==> times[..|old(times)|] == old(times) &&
                      forall i :: |old(times)| <= i < |times| ==> times[i] == NoHours)
    {
      var s := HourOffset(start, origin);
      var e := HourOffset(end, origin);
      if e < s || s < 0 {
        return false, 0;
      }
      GrowTo(e / W);
      assert forall h: nat :: Booked(times, h) == old(Reserved(h));
      var conflict := FindConflict(times, s, e);
      if conflict {
        ghost var h: nat :| s <= h <= e && Booked(times, h);
        assert old(Reserved(h));
        return false, 0;
      }
      MarkRange(s, e, true);
      return true, rate * (e - s + 1);
    }

    /**
     * RemoveReservation: free the hours from the one containing `start` to
     * the one containing `end`, both included, whatever they held.
     *
     * The words are grown to cover block e / W as AddReservation does; the
     * source's guard stops one block short (see RemoveGrowthAsWritten).
     */
    method RemoveReservation(start: int, end: int) returns (ok: bool)
      modifies this
      ensures rate == old(rate)
      ensures var s, e := HourOffset(start, origin), HourOffset(end, origin);
        && (ok <==> 0 <= s <= e)
        && (!ok ==> times == old(times))
        && (ok ==> |times| == Max(|old(times)|, e / W + 1) &&
                   forall h: nat :: Reserved(h) == (old(Reserved(h)) && !(s <= h <= e)))
    {
      var s := HourOffset(start, origin);
      var e := HourOffset(end, origin);
      if e < s || s < 0 {
        return false;
      }
      GrowTo(e / W);
      MarkRange(s, e, false);
      return true;
    }
  }

  // ---------------------------------------------------------------------
  // Properties that span several calls.
  // ---------------------------------------------------------------------

  /**
   * No double booking: once a range is booked, any booking that shares an
   * hour with it is rejected, and the calendar keeps the first booking.
   */
  method BookOverlapping(t: Time, start1: int, end1: int, start2: int, end2: int)
      returns (ok1: bool, ok2: bool)
    requires HourOffset(start1, t.origin) <= HourOffset(end2, t.origin)
    requires HourOffset(start2, t.origin) <= HourOffset(end1, t.origin)
    modifies t
    ensures ok1 ==> !ok2
  {
    var price1, price2;
    ok1, price1 := t.AddReservation(start1, end1);
    label firstBooked:
    ok2, price2 := t.AddReservation(start2, end2);
    if ok1 {
      var s1, s2 := HourOffset(start1, t.origin), HourOffset(start2, t.origin);
      var shared: nat := Max(s1, s2);
      assert old@firstBooked(t.Reserved(shared));
    }
  }

  /**
   * Cancelling a booking frees its hours again: booking, cancelling and
   * re-booking the same range succeeds whenever the first booking did,
   * at the same price.
   */
  method BookCancelRebook(t: Time, start: int, end: int)
      returns (ok1: bool, removed: bool, ok2: bool, price1: int, price2: int)
    modifies t
    ensures ok1 ==> removed && ok2 && price1 == price2
  {
    ok1, price1 := t.AddReservation(start, end);
    removed := t.RemoveReservation(start, end);
    ok2, price2 := t.AddReservation(start, end);
  }

  /** Three hours at 50 cost 150; the same single hour cannot be booked twice. */
  method PriceExample() returns (price: int, again: bool)
    ensures price == 150 && !again
  {
    var t := new Time.Restore(50, 0);
    var ok, ignored;
    assert HourOffset(0, 0) == 0 && HourOffset(2 * HourSeconds, 0) == 2;
    ok, price := t.AddReservation(0, 2 * HourSeconds);
    assert HourOffset(5 * HourSeconds, 0) == 5 && HourOffset(5 * HourSeconds + 59, 0) == 5;
    ok, ignored := t.AddReservation(5 * HourSeconds, 5 * HourSeconds + 59);
    assert t.Reserved(5);
    again, ignored := t.AddReservation(5 * HourSeconds, 5 * HourSeconds + 59);
  }

  /**
   * A booking across a block boundary: hours 30-34 occupy bits 30 and 31 of
   * block 0 and bits 0-2 of block 1 (`mid`, the words after booking);
   * cancelling the range frees every hour again (`after`).
   */
  method BoundaryExample() returns (booked: bool, cancelled: bool, mid: seq<Word>, after: seq<Word>)
    ensures booked && cancelled
    ensures |mid| == 2 && mid[0][30] && mid[0][31] && mid[1][0] && mid[1][1] && mid[1][2]
    ensures forall h: nat :: Booked(mid, h) <==> 30 <= h <= 34
    ensures forall h: nat :: !Booked(after, h)
  {
    var t := new Time.Restore(1, 0);
    var price;
    assert HourOffset(30 * HourSeconds, 0) == 30 && HourOffset(34 * HourSeconds, 0) == 34;
    booked, price := t.AddReservation(30 * HourSeconds, 34 * HourSeconds);
    mid := t.GetTimes();
    HourOfBlockBit(0, 30);
    HourOfBlockBit(0, 31);
    HourOfBlockBit(1, 0);
    HourOfBlockBit(1, 1);
    HourOfBlockBit(1, 2);
    assert Booked(mid, 30) && Booked(mid, 31) && Booked(mid, 32) && Booked(mid, 33) && Booked(mid, 34);
    cancelled := t.RemoveReservation(30 * HourSeconds, 34 * HourSeconds);
    after := t.GetTimes();
  }

  /**
   * Storing and loading a calendar: loading rebuilds it with the stored rate
   * and origin and then installs the stored words, which gives back exactly
   * the same booked hours.
   */
  method RoundTrip(t: Time) returns (u: Time)
    ensures u.origin == t.origin && u.rate == t.rate && u.times == t.times
    ensures forall h: nat :: u.Reserved(h) == t.Reserved(h)
  {
    u := new Time.Restore(t.rate, t.origin);
    u.SetBulkTimes(t.GetTimes());
  }

  // ---------------------------------------------------------------------
  // The code as written, where it departs from its evident intent.
  // ---------------------------------------------------------------------

  /**
   * The conflict pass as space.hpp writes it. In the multi-block case the
   * interior loop runs once per block from the start block up to the end
   * block, but every pass reads the START block, from bit 0: interior
   * blocks are never examined, and hours before the start in the start
   * block count as conflicts.
   */
  function ConflictAsWritten(ts: seq<Word>, s: nat, e: nat): (conflict: bool)
    requires s <= e && e / W < |ts|
    ensures s / W == e / W ==> (conflict <==> exists h: nat :: s <= h <= e && Booked(ts, h))
    ensures s / W < e / W ==>
      var inStartBlock := exists h: nat :: s / W * W <= h < s / W * W + W && Booked(ts, h);
      var inEndBlock := exists h: nat :: e / W * W <= h <= e && Booked(ts, h);
      (conflict <==> inStartBlock || inEndBlock)
  {
    var first, last := s / W, e / W;
    HourOfBlockBit(first, s % W);
    HourOfBlockBit(last, e % W);
    if first == last then
      BitsAreHours(ts, first, s % W, e % W);
      exists i: nat :: s % W <= i <= e % W && ts[first][i]
    else
      BitsAreHours(ts, first, s % W, W - 1);
      BitsAreHours(ts, first, 0, W - 1);
      BitsAreHours(ts, last, 0, e % W);
      || (exists i: nat :: s % W <= i < W && ts[first][i])
      || (exists i: nat :: i < W && ts[first][i])
      || (exists i: nat :: i <= e % W && ts[last][i])
  }

  /** Bits lo..hi of block k hold a set bit exactly when hours k*W+lo .. k*W+hi hold a booked one. */
  lemma BitsAreHours(ts: seq<Word>, k: nat, lo: nat, hi: nat)
    requires k < |ts| && lo <= hi < W
    ensures (exists i: nat :: lo <= i <= hi && ts[k][i]) <==> (exists h: nat :: k * W + lo <= h <= k * W + hi && Booked(ts, h))
  {
    if i: nat :| lo <= i <= hi && ts[k][i] {
      HourOfBlockBit(k, i);
      assert Booked(ts, k * W + i);
    }
    if h: nat :| k * W + lo <= h <= k * W + hi && Booked(ts, h) {
      BlockOfHour(h, k);
      assert h == k * W + h % W;
      assert lo <= h % W <= hi && ts[k][h % W];
    }
  }

  /** Hour 32, in the interior block of the range 0..95, is booked. */
  const InteriorBooked: seq<Word> := [NoHours, NoHours[0 := true], NoHours]

  /** Hour 0 is booked, every other hour is free. */
  const FirstHourBooked: seq<Word> := [NoHours[0 := true], NoHours]

  /** The booked interior hour goes unseen: 0..95 passes the check. */
  lemma AsWrittenMissesInteriorBooking()
    ensures Booked(InteriorBooked, 32)
    ensures !ConflictAsWritten(InteriorBooked, 0, 95)
  {
  }

  /** The free range 1..40 is reported as a conflict because hour 0 is booked. */
  lemma AsWrittenRejectsFreeRange()
    ensures forall h: nat :: 1 <= h <= 40 ==> !Booked(FirstHourBooked, h)
    ensures ConflictAsWritten(FirstHourBooked, 1, 40)
  {
    assert FirstHourBooked[1 / W][0];
  }

  /**
   * The word count RemoveReservation leaves, with its growth guard as
   * written (`times.size() < endHours / 32`).
   */
  function RemoveGrowthAsWritten(size: nat, e: nat): (n: nat)
    ensures n == size || n == e / W + 1
    ensures e / W < n <==> size != e / W
  {
    if size < e / W then e / W + 1 else size
  }

  /**
   * When exactly e / W words are stored, nothing is appended, and the clear
   * pass then indexes block e / W, one past the end.
   */
  lemma AsWrittenRemoveIndexesPastEnd(e: nat)
    ensures RemoveGrowthAsWritten(e / W, e) <= e / W
  {
  }
}
