/** The table with the highest transaction number of every day, by month since the oldest day. */
module DayTable {
  import opened ConfirmedTx
  import opened NaiveScan

  const DAYS: nat := 31

  /** A place in the table: month since the oldest day's month, and day of the month from 0. */
  datatype Slot = Slot(month: int, day: int) {
    predicate Before(other: Slot) {
      month < other.month || (month == other.month && day < other.day)
    }
  }

  function MonthsSince(oldest: Date, d: Date): int {
    (d.year - oldest.year) * 12 + (d.month - oldest.month)
  }

  /** Days of one month have none between them, and the next month is one further. */
  lemma MonthsAreCounted(oldest: Date, d: Date, day: nat)
    requires d.Ok()
    ensures MonthsSince(d, Date(d.year, d.month, day)) == 0
    ensures d.month < 12 ==> MonthsSince(oldest, Date(d.year, d.month + 1, day)) == MonthsSince(oldest, d) + 1
    ensures d.month == 12 ==> MonthsSince(oldest, Date(d.year + 1, 1, day)) == MonthsSince(oldest, d) + 1
  {
  }

  function SlotOf(oldest: Date, d: Date): Slot {
    Slot(MonthsSince(oldest, d), d.day - 1)
  }

  /** Days and slots are ordered alike. */
  lemma SlotOrder(oldest: Date, a: Date, b: Date)
    requires a.Ok() && b.Ok()
    ensures a.Less(b) <==> SlotOf(oldest, a).Before(SlotOf(oldest, b))
  {
  }

  /** v is the highest number confirmed in the slot, or 0 if there is none. */
  ghost predicate HoldsLast(chain: seq<Tx>, oldest: Date, s: Slot, v: nat) {
    if v == 0 then forall i :: 0 <= i < |chain| ==> SlotOf(oldest, chain[i].confirmedAt) != s
    else
      && chain != [] && chain[0].txNr <= v < chain[0].txNr + |chain|
      && SlotOf(oldest, chain[v - chain[0].txNr].confirmedAt) == s
      && forall i :: v - chain[0].txNr < i < |chain| ==> SlotOf(oldest, chain[i].confirmedAt) != s
  }

  ghost predicate TableInv(chain: seq<Tx>, oldest: Date, table: seq<seq<nat>>) {
    && table != [] && (forall m :: 0 <= m < |table| ==> |table[m]| == DAYS)
    && (forall m, d :: 0 <= m < |table| && 0 <= d < DAYS ==> HoldsLast(chain, oldest, Slot(m, d), table[m][d]))
    && (chain != [] ==> MonthsSince(oldest, chain[|chain|-1].confirmedAt) < |table|)
  }

  lemma SlotsAscend(chain: seq<Tx>, oldest: Date, i: nat, j: nat)
    requires ChainOrder(chain) && i < j < |chain|
    ensures !SlotOf(oldest, chain[j].confirmedAt).Before(SlotOf(oldest, chain[i].confirmedAt))
  {
    SlotOrder(oldest, chain[j].confirmedAt, chain[i].confirmedAt);
  }

  /** v is the highest number confirmed up to the slot, and there is one. */
  ghost predicate LastUpTo(chain: seq<Tx>, oldest: Date, to: Slot, v: nat) {
    && chain != [] && chain[0].txNr <= v < chain[0].txNr + |chain|
    && forall i :: 0 <= i < |chain| ==> (chain[i].txNr <= v <==> !to.Before(SlotOf(oldest, chain[i].confirmedAt)))
  }

  ghost predicate NothingIn(chain: seq<Tx>, oldest: Date, after: Slot, to: Slot) {
    forall i :: 0 <= i < |chain| ==>
      !after.Before(SlotOf(oldest, chain[i].confirmedAt)) || to.Before(SlotOf(oldest, chain[i].confirmedAt))
  }

  /** The last entry of a slot is the last one up to a later slot when nothing lies between them. */
  lemma LastStaysLast(chain: seq<Tx>, oldest: Date, at: Slot, to: Slot, v: nat)
    requires ChainOrder(chain) && v != 0 && HoldsLast(chain, oldest, at, v)
    requires !to.Before(at) && NothingIn(chain, oldest, at, to)
    ensures LastUpTo(chain, oldest, to, v)
  {
    var k := v - chain[0].txNr;
    forall i | 0 <= i < |chain|
      ensures chain[i].txNr <= v <==> !to.Before(SlotOf(oldest, chain[i].confirmedAt))
    {
      if i < k { SlotsAscend(chain, oldest, i, k); }
      if k < i { SlotsAscend(chain, oldest, k, i); }
    }
  }

  ghost predicate DaysAreOk(chain: seq<Tx>) {
    forall i :: 0 <= i < |chain| ==> chain[i].confirmedAt.Ok()
  }

  /** Passing an empty slot on the way back. */
  lemma PassEmptySlot(chain: seq<Tx>, oldest: Date, month: int, day: nat, to: Slot)
    requires DaysAreOk(chain) && NothingIn(chain, oldest, Slot(month, day), to)
    requires HoldsLast(chain, oldest, Slot(month, day), 0)
    ensures NothingIn(chain, oldest, Slot(month, day - 1), to)
    ensures day == 0 ==> NothingIn(chain, oldest, Slot(month - 1, DAYS - 1), to)
  {
    forall i | 0 <= i < |chain|
      ensures Slot(month, day - 1).Before(SlotOf(oldest, chain[i].confirmedAt)) ==>
              to.Before(SlotOf(oldest, chain[i].confirmedAt))
      ensures day == 0 && Slot(month - 1, DAYS - 1).Before(SlotOf(oldest, chain[i].confirmedAt)) ==>
              to.Before(SlotOf(oldest, chain[i].confirmedAt))
    {
      assert SlotOf(oldest, chain[i].confirmedAt) != Slot(month, day);
    }
  }

  /**
   Backwards from (endIndex, endDay) to the nearest entry; gives up with 0 on an empty start slot.
   The transaction `earlier` keeps the scan inside the table.
   */
  method ScanBack(table: seq<seq<nat>>, endIndex: int, endDay: nat, startIndex: int, startDay: nat,
                  ghost chain: seq<Tx>, ghost oldest: Date, ghost earlier: nat)
    returns (entry: nat, ghost at: Slot)
    requires DaysAreOk(chain) && TableInv(chain, oldest, table) && 0 <= endIndex < |table| && endDay < DAYS
    requires earlier < |chain| && Slot(0, -1).Before(SlotOf(oldest, chain[earlier].confirmedAt))
    requires !Slot(endIndex, endDay).Before(SlotOf(oldest, chain[earlier].confirmedAt))
    ensures entry != 0 ==>
      && HoldsLast(chain, oldest, at, entry) && !Slot(endIndex, endDay).Before(at)
      && NothingIn(chain, oldest, at, Slot(endIndex, endDay))
      && (startDay < DAYS && !Slot(endIndex, endDay).Before(Slot(startIndex, startDay)) ==>
        !at.Before(Slot(startIndex, startDay)))
    ensures entry == 0 ==>
      && startDay < DAYS && !Slot(endIndex, endDay).Before(Slot(startIndex, startDay))
      && NothingIn(chain, oldest, Slot(startIndex, startDay - 1), Slot(endIndex, endDay))
  {
    var ym, day := endIndex, endDay;
    ghost var from, to := Slot(startIndex, startDay), Slot(endIndex, endDay);
    while table[ym][day] == 0
      invariant 0 <= ym < |table| && 0 <= day < DAYS
      invariant !to.Before(Slot(ym, day))
      invariant startDay < DAYS && !to.Before(from) ==> !Slot(ym, day).Before(from)
      invariant NothingIn(chain, oldest, Slot(ym, day), to)
      decreases ym, day
    {
      PassEmptySlot(chain, oldest, ym, day, to);
      if day == 0 && ym == 0 {
        assert false;
      }
      if ym == startIndex && startDay == day {
        return 0, Slot(ym, day);
      }
      if day == 0 {
        ym, day := ym - 1, 30;
      } else {
        day := day - 1;
      }
    }
    return table[ym][day], Slot(ym, day);
  }

  // ---------- changes of the table ----------

  function EmptyMonths(n: nat): (r: seq<seq<nat>>)
    ensures |r| == n && forall m :: 0 <= m < n ==> |r[m]| == DAYS && forall d :: 0 <= d < DAYS ==> r[m][d] == 0
  {
    seq(n, _ => seq(DAYS, _ => 0))
  }

  lemma TableGrows(chain: seq<Tx>, oldest: Date, table: seq<seq<nat>>, n: nat)
    requires ChainOrder(chain) && TableInv(chain, oldest, table)
    ensures TableInv(chain, oldest, table + EmptyMonths(n))
  {
    var table' := table + EmptyMonths(n);
    forall m, d | 0 <= m < |table'| && 0 <= d < DAYS
      ensures HoldsLast(chain, oldest, Slot(m, d), table'[m][d])
    {
      if m < |table| {
        assert HoldsLast(chain, oldest, Slot(m, d), table[m][d]);
      } else {
        forall i | 0 <= i < |chain| ensures SlotOf(oldest, chain[i].confirmedAt) != Slot(m, d) {
          if i < |chain| - 1 { SlotsAscend(chain, oldest, i, |chain| - 1); }
        }
      }
    }
  }

  function SetEntry(table: seq<seq<nat>>, m: nat, d: nat, nr: nat): seq<seq<nat>>
    requires m < |table| && d < |table[m]|
  {
    var row: seq<nat> := table[m][d := nr];
    table[m := row]
  }

  /** Entering the next transaction under its day. */
  lemma TableNext(chain: seq<Tx>, oldest: Date, table: seq<seq<nat>>, tx: Tx, m: nat, d: nat)
    requires ChainOrder(chain + [tx]) && TableInv(chain, oldest, table)
    requires SlotOf(oldest, tx.confirmedAt) == Slot(m, d) && m < |table| && d < DAYS
    ensures table[m][d] < tx.txNr
    ensures TableInv(chain + [tx], oldest, SetEntry(table, m, d, tx.txNr))
  {
    var chain', table' := chain + [tx], SetEntry(table, m, d, tx.txNr);
    assert chain'[|chain|] == tx && tx.txNr == chain'[0].txNr + |chain|;
    assert chain != [] ==> chain[0] == chain'[0];
    assert HoldsLast(chain, oldest, Slot(m, d), table[m][d]);
    forall m', d' | 0 <= m' < |table'| && 0 <= d' < DAYS
      ensures HoldsLast(chain', oldest, Slot(m', d'), table'[m'][d'])
    {
      assert HoldsLast(chain, oldest, Slot(m', d'), table[m'][d']);
      if m' != m || d' != d {
        var v := table[m'][d'];
        assert table'[m'][d'] == v;
        if v != 0 { assert chain'[v - chain[0].txNr] == chain[v - chain[0].txNr]; }
      }
    }
  }

  /** Number bounds, date bounds and table of an index that holds the transactions c. */
  ghost predicate Bounds(c: seq<Tx>, minNr: nat, maxNr: nat, oldest: Date, newest: Date, table: seq<seq<nat>>) {
    && ChainOrder(c)
    && TableInv(c, oldest, table)
    && (c == [] ==> minNr == maxNr == 0 && oldest == newest == NO_DATE)
    && (c != [] ==>
      && minNr == c[0].txNr && maxNr == c[|c|-1].txNr
      && oldest == c[0].confirmedAt && newest == c[|c|-1].confirmedAt)
  }

  ghost predicate Rectangular(table: seq<seq<nat>>) {
    table != [] && forall m :: 0 <= m < |table| ==> |table[m]| == DAYS
  }

  /** The five values after updateYearMonthDayTxRange; the table may have grown before its entry is set. */
  ghost predicate RangeUpdated(minNr: nat, maxNr: nat, oldest: Date, newest: Date, table: seq<seq<nat>>, day: Date, nr: nat,
                               minNr': nat, maxNr': nat, oldest': Date, newest': Date, table': seq<seq<nat>>)
  {
    && Rectangular(table) && day.Ok()
    && minNr' == (if minNr == 0 then nr else minNr)
    && maxNr' == (if maxNr < nr then nr else maxNr)
    && oldest' == (if oldest == NO_DATE then day else oldest)
    && newest' == (if newest.Less(day) then day else newest)
    && exists grown: nat ::
      var t := table + EmptyMonths(grown);
      var m, d := MonthsSince(oldest', day), day.day - 1;
      && 0 <= m < |t| && |t[m]| == DAYS
      && table' == if t[m][d] < nr then SetEntry(t, m, d, nr) else t
  }

  /** What updateYearMonthDayTxRange does keeps bounds and table in agreement with the chain. */
  lemma BoundsNext(c: seq<Tx>, minNr: nat, maxNr: nat, oldest: Date, newest: Date, table: seq<seq<nat>>, tx: Tx,
                   minNr': nat, maxNr': nat, oldest': Date, newest': Date, table': seq<seq<nat>>)
    requires Bounds(c, minNr, maxNr, oldest, newest, table) && ChainOrder(c + [tx])
    requires RangeUpdated(minNr, maxNr, oldest, newest, table, tx.confirmedAt, tx.txNr,
                          minNr', maxNr', oldest', newest', table')
    ensures Bounds(c + [tx], minNr', maxNr', oldest', newest', table')
  {
    var c', m, d := c + [tx], MonthsSince(oldest', tx.confirmedAt), tx.confirmedAt.day - 1;
    var grown: nat :| var t := table + EmptyMonths(grown);
      0 <= m < |t| && |t[m]| == DAYS && table' == if t[m][d] < tx.txNr then SetEntry(t, m, d, tx.txNr) else t;
    var t := table + EmptyMonths(grown);
    assert c'[|c|] == tx && (c != [] ==> c'[|c|-1] == c[|c|-1] && c'[0] == c[0]);
    assert tx.txNr == c'[0].txNr + |c|;
    TableGrows(c, oldest, table, grown);
    assert TableInv(c, oldest', t);
    TableNext(c, oldest', t, tx, m, d);
  }
}
