// Page reservation and commit accounting (engine/src/systems/vmm_system.c).
//
// The manager's state counts the pages reserved and mapped over all pools
// against two limits, and keeps a fixed array of pool records; a record
// whose base address is 0 is free. Each pool keeps a bitarray with one bit
// per reserved page, set while the page is committed. The model keeps that
// bitarray as its bits (`pages`), updated with the bitarray's own
// specification functions. The platform's reserve, commit, decommit and
// release calls are parameters: a success flag, or for the page runs of
// alter_pages a predicate on (first page, page count).
module Vmm {
  import opened Wrappers
  import opened BitArray
  import Utils

  /** bytes_to_page: the pages needed to hold bytes, rounded up. */
  function BytesToPage(bytes: nat, pageSize: nat): nat
    requires pageSize > 0
  {
    (bytes + pageSize - 1) / pageSize
  }

  /** BytesToPage is the least page count whose bytes cover the request. */
  lemma BytesToPageIsCeiling(bytes: nat, pageSize: nat)
    requires pageSize > 0
    ensures BytesToPage(bytes, pageSize) * pageSize >= bytes
    ensures BytesToPage(bytes, pageSize) == 0 || (BytesToPage(bytes, pageSize) - 1) * pageSize < bytes
  {
    var n := bytes + pageSize - 1;
    var q := n / pageSize;
    var r := n % pageSize;
    assert n == q * pageSize + r;
    assert q * pageSize == n - r;
    if q > 0 {
      assert (q - 1) * pageSize == q * pageSize - pageSize;
    }
  }

  /** A pool of page_size + 128 bytes reserves two pages. */
  lemma OddSizeTakesTwoPages(pageSize: nat)
    requires pageSize > 128
    ensures BytesToPage(pageSize + 128, pageSize) == 2
  {
    BytesToPageIsCeiling(pageSize + 128, pageSize);
    var q := BytesToPage(pageSize + 128, pageSize);
    Utils.MulOrder(q, 2, pageSize);
    assert q >= 2;
    Utils.MulOrder(1, q - 1, pageSize);
  }

  /** page_to_bytes as intended: pages times the page size. */
  function PageToBytes(pages: nat, pageSize: nat): nat
  {
    pages * pageSize
  }

  /** A pool record; base 0 marks a free slot. */
  datatype Pool = Pool(
    base: nat,
    systemPages: nat,
    pagesReserved: nat,
    pagesMapped: nat,
    memoryReserved: nat,
    memoryMapped: nat,
    pages: seq<bool>)

  /**
   * recalc_mapped_size's effect on a record whose bits changed: only the
   * bits and the mapped counts differ, and the counts are the bits' own.
   */
  predicate Recounted(before: Pool, after: Pool, pageSize: nat)
  {
    after == before.(pages := after.pages, pagesMapped := CountTrue(after.pages),
                     memoryMapped := PageToBytes(CountTrue(after.pages), pageSize))
  }

  /** A record after kzero_memory. */
  const EMPTY: Pool := Pool(0, 0, 0, 0, 0, 0, [])

  /** A pool's counters agree with its page bits. */
  ghost predicate PoolValid(p: Pool, pageSize: nat)
  {
    (p.base == 0 ==> p == EMPTY)
    && |p.pages| == p.pagesReserved
    && p.pagesMapped == CountTrue(p.pages)
    && p.memoryReserved == PageToBytes(p.pagesReserved, pageSize)
    && p.memoryMapped == PageToBytes(p.pagesMapped, pageSize)
  }

  /**
   * The record vmm_new_page_pool sets up for `amount` pages reserved at
   * `address`: the first ceil(ceil(amount / 8) / page_size) pages hold the
   * bitarray, the pool's pages follow them, and none is committed (the
   * bits live in freshly committed system pages, which read as 0).
   */
  function NewPool(address: nat, amount: nat, pageSize: nat): (p: Pool)
    requires pageSize > 0
    ensures p.pagesReserved == amount && p.pagesMapped == 0
    ensures p.base == address + p.systemPages * pageSize
    ensures p.pages == seq(amount, _ => false)
  {
    var systemPages := BytesToPage((amount + 7) / 8, pageSize);
    Pool(address + systemPages * pageSize, systemPages, amount, 0, PageToBytes(amount, pageSize), 0,
         seq(amount, _ => false))
  }

  /** A new pool at a non-null address is a well-formed record, with nothing committed. */
  lemma NewPoolValid(address: nat, amount: nat, pageSize: nat)
    requires address > 0 && pageSize > 0
    ensures PoolValid(NewPool(address, amount, pageSize), pageSize)
    ensures CountTrue(NewPool(address, amount, pageSize).pages) == 0
  {
    CountFalse(amount);
  }

  function SumReserved(ps: seq<Pool>): nat
  {
    if ps == [] then 0 else ps[0].pagesReserved + SumReserved(ps[1..])
  }

  function SumMapped(ps: seq<Pool>): nat
  {
    if ps == [] then 0 else ps[0].pagesMapped + SumMapped(ps[1..])
  }

  lemma {:induction false} SumsUpdate(ps: seq<Pool>, i: nat, p: Pool)
    requires i < |ps|
    ensures SumReserved(ps[i := p]) + ps[i].pagesReserved == SumReserved(ps) + p.pagesReserved
    ensures SumMapped(ps[i := p]) + ps[i].pagesMapped == SumMapped(ps) + p.pagesMapped
  {
    if i > 0 {
      assert ps[i := p][1..] == ps[1..][i - 1 := p];
      SumsUpdate(ps[1..], i - 1, p);
    }
  }

  lemma {:induction false} SumsBound(ps: seq<Pool>, i: nat)
    requires i < |ps|
    ensures ps[i].pagesReserved <= SumReserved(ps) && ps[i].pagesMapped <= SumMapped(ps)
  {
    if i > 0 {
      SumsBound(ps[1..], i - 1);
    }
  }

  lemma {:induction false} SumsEmpty(n: nat)
    ensures SumReserved(seq(n, _ => EMPTY)) == 0 && SumMapped(seq(n, _ => EMPTY)) == 0
  {
    if n > 0 {
      assert seq(n, _ => EMPTY)[1..] == seq(n - 1, _ => EMPTY);
      SumsEmpty(n - 1);
    }
  }

  /** The index of the first free record (base 0), if any. */
  function FirstFreeSlot(ps: seq<Pool>): (r: Option<nat>)
    ensures r.Some? ==> r.value < |ps| && ps[r.value].base == 0
    ensures r.Some? ==> forall j :: 0 <= j < r.value ==> ps[j].base != 0
    ensures r.None? ==> forall j :: 0 <= j < |ps| ==> ps[j].base != 0
  {
    if ps == [] then None
    else if ps[0].base == 0 then Some(0)
    else match FirstFreeSlot(ps[1..]) {
      case None => None
      case Some(k) => Some(k + 1)
    }
  }

  // ------------------------------------------------------------ page runs

  /**
   * The runs of pages in state v within [cur, end), each as (first page,
   * page count), in page order, as alter_pages finds them with two
   * bitarray_find_first calls per run: every run holds only pages in state
   * v, and is followed by a page in the other state or by the range's end.
   */
  function Runs(bits: seq<bool>, cur: nat, end: nat, v: bool): seq<(nat, nat)>
    requires end <= |bits|
    decreases end - cur
  {
    var b := FirstMatch(bits, cur, end, v);
    if b >= end then []
    else
      var e := FirstMatch(bits, b + 1, end, !v);
      [(b, e - b)] + Runs(bits, e, end, v)
  }

  /**
   * The first run: it starts at the first page in state v and stops at the
   * first page after it in the other state, or at end.
   */
  lemma RunsHead(bits: seq<bool>, cur: nat, end: nat, v: bool)
    requires end <= |bits| && Runs(bits, cur, end, v) != []
    ensures var b := FirstMatch(bits, cur, end, v);
      var e := FirstMatch(bits, b + 1, end, !v);
      cur <= b < e <= end
      && Runs(bits, cur, end, v) == [(b, e - b)] + Runs(bits, e, end, v)
      && (forall i :: b <= i < e ==> bits[i] == v)
      && (e < end ==> bits[e] != v)
  {
    var b := FirstMatch(bits, cur, end, v);
    FirstMatchFinds(bits, cur, end, v);
    FirstMatchFinds(bits, b + 1, end, !v);
  }

  /**
   * Run k holds only pages in state v, lies inside [cur, end), and is
   * followed by a page in the other state or by end.
   */
  lemma {:induction false} RunIsMaximal(bits: seq<bool>, cur: nat, end: nat, v: bool, k: nat)
    requires end <= |bits| && k < |Runs(bits, cur, end, v)|
    ensures var r := Runs(bits, cur, end, v)[k];
      cur <= r.0 && r.1 > 0 && r.0 + r.1 <= end
      && (forall i :: r.0 <= i < r.0 + r.1 ==> bits[i] == v)
      && (r.0 + r.1 < end ==> bits[r.0 + r.1] != v)
    decreases end - cur
  {
    RunsHead(bits, cur, end, v);
    if k > 0 {
      var e := FirstMatch(bits, FirstMatch(bits, cur, end, v) + 1, end, !v);
      RunIsMaximal(bits, e, end, v, k - 1);
    }
  }

  /** Each run starts after the run before it ends, with a page in the other state between them. */
  lemma {:induction false} RunsSeparated(bits: seq<bool>, cur: nat, end: nat, v: bool, k: nat)
    requires end <= |bits| && 0 < k < |Runs(bits, cur, end, v)|
    ensures Runs(bits, cur, end, v)[k - 1].0 + Runs(bits, cur, end, v)[k - 1].1 < Runs(bits, cur, end, v)[k].0
    decreases end - cur
  {
    RunsHead(bits, cur, end, v);
    var e := FirstMatch(bits, FirstMatch(bits, cur, end, v) + 1, end, !v);
    if k > 1 {
      RunsSeparated(bits, e, end, v, k - 1);
    } else {
      RunIsMaximal(bits, e, end, v, 0);
    }
  }

  /** Every page in state v inside the range lies in one of the runs. */
  lemma {:induction false} RunsCover(bits: seq<bool>, cur: nat, end: nat, v: bool, i: nat)
    requires end <= |bits| && cur <= i < end && bits[i] == v
    ensures exists k :: (0 <= k < |Runs(bits, cur, end, v)| &&
      Runs(bits, cur, end, v)[k].0 <= i < Runs(bits, cur, end, v)[k].0 + Runs(bits, cur, end, v)[k].1)
    decreases end - cur
  {
    var rs := Runs(bits, cur, end, v);
    var b := FirstMatch(bits, cur, end, v);
    FirstMatchFinds(bits, cur, end, v);
    assert b <= i;
    var e := FirstMatch(bits, b + 1, end, !v);
    if i < e {
      assert rs[0] == (b, e - b);
    } else {
      RunsCover(bits, e, end, v, i);
      var k :| 0 <= k < |Runs(bits, e, end, v)| && Runs(bits, e, end, v)[k].0 <= i < Runs(bits, e, end, v)[k].0 + Runs(bits, e, end, v)[k].1;
      assert rs[k + 1] == Runs(bits, e, end, v)[k];
    }
  }

  /** FirstMatch reads only the bits of its range. */
  lemma {:induction false} FirstMatchLocal(a: seq<bool>, b: seq<bool>, cur: nat, end: nat, v: bool)
    requires end <= |a| && end <= |b|
    requires forall i :: cur <= i < end ==> a[i] == b[i]
    ensures FirstMatch(a, cur, end, v) == FirstMatch(b, cur, end, v)
    decreases end - cur
  {
    if cur < end && a[cur] != v {
      FirstMatchLocal(a, b, cur + 1, end, v);
    }
  }

  /**
   * alter_pages: walks [start, start + count) run by run. Each run of pages
   * not yet in the target state is handed to the platform; on success its
   * bits are filled, on failure the walk stops and reports false. `calls`
   * lists the runs the platform accepted and `failed` the one it refused.
   * On success the accepted runs are exactly the runs of pages in the other
   * state and every page in the range is in the target state afterwards;
   * on failure they and the refused run are a prefix of those runs, and
   * only the pages before the refused run changed. changed is set when
   * some run was accepted. Pages outside the range never change.
   */
  method AlterPages(bits: seq<bool>, start: nat, count: nat, commit: bool, platform: (nat, nat) -> bool)
    returns (ok: bool, changed: bool, after: seq<bool>, calls: seq<(nat, nat)>, failed: Option<(nat, nat)>,
             ghost remaining: seq<(nat, nat)>)
    requires start + count <= |bits|
    ensures Accepted(platform, calls)
    ensures changed <==> calls != []
    ensures !changed ==> after == bits
    ensures ok <==> failed.None?
    ensures ok ==> calls == Runs(bits, start, start + count, !commit)
    ensures ok ==> after == FillBits(bits, commit, start, start + count)
    ensures failed.Some? ==> calls + [failed.value] + remaining == Runs(bits, start, start + count, !commit)
    ensures failed.Some? ==> !platform(failed.value.0, failed.value.1)
    ensures failed.Some? ==> start <= failed.value.0 < start + count
    ensures failed.Some? ==> after == FillBits(bits, commit, start, failed.value.0)
  {
    var end := start + count;
    var current := start;
    after, calls, failed, remaining := bits, [], None, [];
    FillUpTo(bits, commit, start, start, start, after);
    ghost var all := Runs(bits, start, end, !commit);
    while current < end
      invariant start <= current <= end
      invariant after == FillBits(bits, commit, start, current)
      invariant calls + Runs(bits, current, end, !commit) == all
      invariant Accepted(platform, calls)
      invariant calls == [] ==> after == bits
      decreases end - current
    {
      var batchStart, batchEnd := FindBatch(bits, after, start, current, end, commit);
      if batchStart >= end {
        assert calls + [] == all;
        break;
      }
      var batch := (batchStart, batchEnd - batchStart);
      Regroup(calls, batch, Runs(bits, batchEnd, end, !commit), all);
      if !platform(batch.0, batch.1) {
        failed, remaining := Some(batch), Runs(bits, batchEnd, end, !commit);
        break;
      }
      AcceptedSnoc(platform, calls, batch);
      calls := calls + [batch];
      FillRun(bits, commit, start, batchStart, batchEnd);
      after := FillBits(after, commit, batchStart, batchEnd);
      current := batchEnd;
    }
    if current == end {
      RunsAtEnd(bits, end, !commit);
      assert calls + [] == all;
    }
    ok, changed := failed.None?, calls != [];
  }

  /** Every run in calls was accepted by the platform. */
  predicate Accepted(platform: (nat, nat) -> bool, calls: seq<(nat, nat)>) {
    forall k :: 0 <= k < |calls| ==> platform(calls[k].0, calls[k].1)
  }

  /**
   * The index of the first run the platform refuses, walking the runs in
   * order; None exactly when it accepts them all.
   */
  function FirstRefused(platform: (nat, nat) -> bool, runs: seq<(nat, nat)>): (r: Option<nat>)
    ensures r.None? <==> Accepted(platform, runs)
    ensures r.Some? ==> r.value < |runs| && !platform(runs[r.value].0, runs[r.value].1)
    ensures r.Some? ==> Accepted(platform, runs[..r.value])
  {
    if runs == [] then None
    else if !platform(runs[0].0, runs[0].1) then Some(0)
    else
      match FirstRefused(platform, runs[1..])
      case None => (assert forall k :: 0 < k < |runs| ==> runs[k] == runs[1..][k - 1]; None)
      case Some(k) => (assert runs[..k + 1] == [runs[0]] + runs[1..][..k]; Some(k + 1))
  }

  /**
   * The outcome of alter_pages in terms of the runs alone: it succeeds
   * exactly when the platform accepts every run, it changed something
   * exactly when the first run was accepted, and a refusal is at the first
   * refused run.
   */
  lemma AlterOutcome(platform: (nat, nat) -> bool, runs: seq<(nat, nat)>, calls: seq<(nat, nat)>,
                     failed: Option<(nat, nat)>, remaining: seq<(nat, nat)>)
    requires Accepted(platform, calls)
    requires failed.None? ==> calls == runs
    requires failed.Some? ==> calls + [failed.value] + remaining == runs && !platform(failed.value.0, failed.value.1)
    ensures failed.None? <==> FirstRefused(platform, runs).None?
    ensures failed.Some? ==> FirstRefused(platform, runs) == Some(|calls|) && runs[|calls|] == failed.value
    ensures calls != [] <==> runs != [] && platform(runs[0].0, runs[0].1)
  {
    if failed.Some? {
      assert runs[|calls|] == failed.value;
      var r := FirstRefused(platform, runs);
      assert forall k :: 0 <= k < |calls| ==> runs[k] == calls[k];
    }
  }

  /**
   * alter_pages over [first, first + amount) succeeds: the range lies in
   * the bits and the platform accepts every run of pages not yet in the
   * target state.
   */
  predicate RunsAccepted(bits: seq<bool>, first: nat, amount: nat, commit: bool, platform: (nat, nat) -> bool) {
    first + amount <= |bits| && FirstRefused(platform, Runs(bits, first, first + amount, !commit)).None?
  }

  /** alter_pages over [first, first + amount) changes something: its first run exists and is accepted. */
  predicate FirstRunAccepted(bits: seq<bool>, first: nat, amount: nat, commit: bool, platform: (nat, nat) -> bool) {
    first + amount <= |bits|
    && var runs := Runs(bits, first, first + amount, !commit);
       runs != [] && platform(runs[0].0, runs[0].1)
  }

  /**
   * The bits alter_pages leaves at a refusal: filled from first up to the
   * start of the first refused run. Without a refusal the bits themselves.
   */
  function FilledToRefusal(bits: seq<bool>, first: nat, amount: nat, commit: bool, platform: (nat, nat) -> bool): seq<bool> {
    if first + amount > |bits| then bits
    else
      var runs := Runs(bits, first, first + amount, !commit);
      match FirstRefused(platform, runs)
      case None => bits
      case Some(k) => FillBits(bits, commit, first, runs[k].0)
  }

  /** One more accepted run keeps every run accepted. */
  lemma AcceptedSnoc(platform: (nat, nat) -> bool, calls: seq<(nat, nat)>, x: (nat, nat))
    requires Accepted(platform, calls) && platform(x.0, x.1)
    ensures Accepted(platform, calls + [x])
  {
  }

  /**
   * The two bitarray_find_first calls of one round of alter_pages: the
   * first page from current not in the target state, and the first page
   * after it that is. They bound the next run, and the pages skipped before
   * it are already in the target state.
   */
  method FindBatch(bits: seq<bool>, after: seq<bool>, start: nat, current: nat, end: nat, commit: bool)
    returns (batchStart: nat, batchEnd: nat)
    requires start <= current <= end <= |bits|
    requires after == FillBits(bits, commit, start, current)
    ensures batchStart >= end ==> Runs(bits, current, end, !commit) == [] && after == FillBits(bits, commit, start, end)
    ensures batchStart < end ==> current <= batchStart < batchEnd <= end
    ensures batchStart < end ==>
      Runs(bits, current, end, !commit) == [(batchStart, batchEnd - batchStart)] + Runs(bits, batchEnd, end, !commit)
    ensures batchStart < end ==> after == FillBits(bits, commit, start, batchStart)
  {
    batchStart := FirstMatch(after, current, end, !commit);
    if batchStart >= end {
      NoBatch(bits, after, start, current, end, commit);
      return batchStart, end;
    }
    batchEnd := FirstMatch(after, batchStart + 1, end, commit);
    NextBatch(bits, after, start, current, end, commit, batchStart, batchEnd);
  }

  /** No page of [current, end) is in the other state: there is no run left, and the range is filled. */
  lemma NoBatch(bits: seq<bool>, after: seq<bool>, start: nat, current: nat, end: nat, commit: bool)
    requires start <= current <= end <= |bits|
    requires after == FillBits(bits, commit, start, current)
    requires FirstMatch(after, current, end, !commit) >= end
    ensures Runs(bits, current, end, !commit) == []
    ensures after == FillBits(bits, commit, start, end)
  {
    FirstMatchLocal(after, bits, current, end, !commit);
    FirstMatchFinds(bits, current, end, !commit);
    FillUpTo(bits, commit, start, current, end, after);
  }

  /** The two searches on the current bits find the next run of pages in the other state. */
  lemma NextBatch(bits: seq<bool>, after: seq<bool>, start: nat, current: nat, end: nat, commit: bool, b: nat, e: nat)
    requires start <= current <= end <= |bits|
    requires after == FillBits(bits, commit, start, current)
    requires b == FirstMatch(after, current, end, !commit) < end
    requires e == FirstMatch(after, b + 1, end, commit)
    ensures current <= b < e <= end
    ensures Runs(bits, current, end, !commit) == [(b, e - b)] + Runs(bits, e, end, !commit)
    ensures after == FillBits(bits, commit, start, b)
  {
    FillLeavesRest(bits, commit, start, current, end);
    BatchRuns(bits, after, current, end, commit, b, e);
    BatchFill(bits, after, start, current, end, commit, b);
  }

  /** A fill of [start, current) leaves the pages from current on as they were. */
  lemma FillLeavesRest(bits: seq<bool>, c: bool, start: nat, current: nat, end: nat)
    requires start <= current <= end <= |bits|
    ensures forall i :: current <= i < end ==> FillBits(bits, c, start, current)[i] == bits[i]
  {
  }

  /** The searches on after bound the first run of bits, which agree with after from current on. */
  lemma BatchRuns(bits: seq<bool>, after: seq<bool>, current: nat, end: nat, commit: bool, b: nat, e: nat)
    requires current <= end <= |bits| && end <= |after|
    requires forall i :: current <= i < end ==> after[i] == bits[i]
    requires b == FirstMatch(after, current, end, !commit) < end
    requires e == FirstMatch(after, b + 1, end, commit)
    ensures current <= b < e <= end
    ensures Runs(bits, current, end, !commit) == [(b, e - b)] + Runs(bits, e, end, !commit)
  {
    FirstMatchLocal(after, bits, current, end, !commit);
    FirstMatchLocal(after, bits, b + 1, end, commit);
    FirstMatchFinds(bits, current, end, !commit);
    RunsStep(bits, current, end, !commit, b, e);
  }

  /** The pages skipped before the first run are already in state commit, so the fill reaches b. */
  lemma BatchFill(bits: seq<bool>, after: seq<bool>, start: nat, current: nat, end: nat, commit: bool, b: nat)
    requires start <= current <= end <= |bits|
    requires after == FillBits(bits, commit, start, current)
    requires forall i :: current <= i < end ==> after[i] == bits[i]
    requires b == FirstMatch(after, current, end, !commit) < end
    ensures current <= b && after == FillBits(bits, commit, start, b)
  {
    FirstMatchLocal(after, bits, current, end, !commit);
    FirstMatchFinds(bits, current, end, !commit);
    FillUpTo(bits, commit, start, current, b, after);
  }

  /** Pages already in state c extend a fill of [start, cur) to [start, b). */
  lemma FillUpTo(bits: seq<bool>, c: bool, start: nat, cur: nat, b: nat, after: seq<bool>)
    requires start <= cur <= b <= |bits|
    requires after == FillBits(bits, c, start, cur)
    requires forall i :: cur <= i < b ==> bits[i] == c
    ensures after == FillBits(bits, c, start, b)
  {
  }

  /** Filling [b, e) after [start, b) fills [start, e). */
  lemma FillRun(bits: seq<bool>, c: bool, start: nat, b: nat, e: nat)
    requires start <= b <= e <= |bits|
    ensures FillBits(FillBits(bits, c, start, b), c, b, e) == FillBits(bits, c, start, e)
  {
  }

  /** An empty range has no runs. */
  lemma RunsAtEnd(bits: seq<bool>, end: nat, v: bool)
    requires end <= |bits|
    ensures Runs(bits, end, end, v) == []
  {
  }

  /** The first run found from cur is followed by the runs from its end. */
  lemma RunsStep(bits: seq<bool>, cur: nat, end: nat, v: bool, b: nat, e: nat)
    requires end <= |bits|
    requires b == FirstMatch(bits, cur, end, v) < end
    requires e == FirstMatch(bits, b + 1, end, !v)
    ensures Runs(bits, cur, end, v) == [(b, e - b)] + Runs(bits, e, end, v)
  {
  }

  /** Taking the head of the remaining runs onto the accepted ones keeps their concatenation. */
  lemma Regroup<T>(calls: seq<T>, x: T, next: seq<T>, all: seq<T>)
    requires calls + ([x] + next) == all
    ensures (calls + [x]) + next == all
  {
    assert (calls + [x]) + next == calls + ([x] + next);
  }

  /** The count of a sequence is the counts of its three slices at lo and hi. */
  lemma CountSplit(s: seq<bool>, lo: nat, hi: nat)
    requires lo <= hi <= |s|
    ensures CountTrue(s) == CountTrue(s[..lo]) + CountTrue(s[lo..hi]) + CountTrue(s[hi..])
  {
    SplitThree(s, lo, hi);
    CountAppend(s[..lo] + s[lo..hi], s[hi..]);
    CountAppend(s[..lo], s[lo..hi]);
  }

  lemma SplitThree<T>(s: seq<T>, lo: nat, hi: nat)
    requires lo <= hi <= |s|
    ensures s == s[..lo] + s[lo..hi] + s[hi..]
  {
    assert s == s[..hi] + s[hi..];
    assert s[..hi] == s[..lo] + s[lo..hi];
  }

  /** A fill changes only the middle slice, to all value. */
  lemma FillSlices(bits: seq<bool>, value: bool, lo: nat, hi: nat)
    requires lo <= hi <= |bits|
    ensures FillBits(bits, value, lo, hi)[..lo] == bits[..lo]
    ensures FillBits(bits, value, lo, hi)[hi..] == bits[hi..]
    ensures FillBits(bits, value, lo, hi)[lo..hi] == seq(hi - lo, _ => value)
  {
  }

  /** Filling pages true adds at most the range's size to the count of true pages. */
  lemma CountFillTrue(bits: seq<bool>, lo: nat, hi: nat)
    requires lo <= hi <= |bits|
    ensures CountTrue(bits) <= CountTrue(FillBits(bits, true, lo, hi)) <= CountTrue(bits) + (hi - lo)
  {
    var f := FillBits(bits, true, lo, hi);
    CountSplit(bits, lo, hi);
    CountSplit(f, lo, hi);
    FillSlices(bits, true, lo, hi);
    FilledCount(bits, true, lo, hi);
  }

  /** The filled range counts all its pages when filled true and none when filled false. */
  lemma FilledCount(bits: seq<bool>, value: bool, lo: nat, hi: nat)
    requires lo <= hi <= |bits|
    ensures CountTrue(FillBits(bits, value, lo, hi)[lo..hi]) == if value then hi - lo else 0
  {
    FillSlices(bits, value, lo, hi);
    if value {
      CountAllTrue(hi - lo);
    } else {
      CountFalse(hi - lo);
    }
  }

  /**
   * Filling part of a range changes the committed count by at most the
   * range's length, and a decommit never raises it.
   */
  lemma AlterCount(bits: seq<bool>, c: bool, lo: nat, mid: nat, hi: nat)
    requires lo <= mid <= hi <= |bits|
    ensures c ==> CountTrue(FillBits(bits, c, lo, mid)) <= CountTrue(bits) + (hi - lo)
    ensures !c ==> CountTrue(FillBits(bits, c, lo, mid)) <= CountTrue(bits)
  {
    if c {
      CountFillTrue(bits, lo, mid);
    } else {
      CountFillFalse(bits, lo, mid);
    }
  }

  /** Filling pages false never adds a true page. */
  lemma CountFillFalse(bits: seq<bool>, lo: nat, hi: nat)
    requires lo <= hi <= |bits|
    ensures CountTrue(FillBits(bits, false, lo, hi)) <= CountTrue(bits)
  {
    var f := FillBits(bits, false, lo, hi);
    CountSplit(bits, lo, hi);
    CountSplit(f, lo, hi);
    FillSlices(bits, false, lo, hi);
    FilledCount(bits, false, lo, hi);
  }

  lemma {:induction false} CountAllTrue(n: nat)
    ensures CountTrue(seq(n, _ => true)) == n
  {
    if n > 0 {
      assert seq(n, _ => true)[1..] == seq(n - 1, _ => true);
      CountAllTrue(n - 1);
    }
  }

  /** commit_info: the byte range of the pages a commit or decommit covered. */
  datatype CommitInfo = CommitInfo(startIndex: nat, size: nat)

  class Manager {
    var pageSize: nat
    var pagesReserved: nat
    var pagesMapped: nat
    var maxPagesReserved: nat
    var maxPagesMapped: nat
    /** pool_array: config.max_pool_amount records. */
    var pools: seq<Pool>

    /**
     * Every record agrees with its bits; the global mapped count is the sum
     * of the pools' counts and stays within its limit; the reserved count
     * covers the pools' pages and stays within its limit.
     */
    ghost predicate Valid()
      reads this
    {
      pageSize > 0
      && (forall i :: 0 <= i < |pools| ==> PoolValid(pools[i], pageSize))
      && pagesMapped == SumMapped(pools) && pagesMapped <= maxPagesMapped
      && SumReserved(pools) <= pagesReserved <= maxPagesReserved
    }

    /**
     * vmm_initialise once its platform calls succeed: no pages counted, the
     * limits are the configured byte limits in pages, and every record is free.
     */
    constructor (pageSize: nat, maxMemoryReserved: nat, maxMemoryMapped: nat, maxPoolAmount: nat)
      requires pageSize > 0
      ensures Valid() && this.pageSize == pageSize
      ensures pagesReserved == 0 && pagesMapped == 0
      ensures maxPagesReserved == BytesToPage(maxMemoryReserved, pageSize)
      ensures maxPagesMapped == BytesToPage(maxMemoryMapped, pageSize)
      ensures pools == seq(maxPoolAmount, _ => EMPTY)
    {
      this.pageSize := pageSize;
      pagesReserved, pagesMapped := 0, 0;
      maxPagesReserved := BytesToPage(maxMemoryReserved, pageSize);
      maxPagesMapped := BytesToPage(maxMemoryMapped, pageSize);
      pools := seq(maxPoolAmount, _ => EMPTY);
      new;
      SumsEmpty(maxPoolAmount);
      assert forall i :: 0 <= i < |pools| ==> pools[i] == EMPTY;
    }

    /**
     * The search of vmm_new_page_pool for the first record whose base
     * address is 0; the number of records when every one is in use.
     */
    method FindFreeSlot() returns (slot: nat)
      requires Valid()
      ensures slot <= |pools|
      ensures slot == |pools| <==> FirstFreeSlot(pools).None?
      ensures slot < |pools| ==> FirstFreeSlot(pools) == Some(slot)
    {
      slot := 0;
      while slot < |pools| && pools[slot].base != 0
        invariant slot <= |pools|
        invariant forall j :: 0 <= j < slot ==> pools[j].base != 0
      {
        slot := slot + 1;
      }
      assert slot < |pools| ==> FirstFreeSlot(pools) == Some(slot);
    }

    /**
     * vmm_new_page_pool: the first free record gets ceil(size / page_size)
     * pages, all uncommitted, behind the system pages holding its bitarray.
     * No free record, or a reserved total past max_pages_reserved, gives
     * None with nothing changed. The reserved total is raised before the
     * platform calls, and stays raised when one of them fails.
     */
    method NewPagePool(size: nat, address: nat, reserveOk: bool, commitOk: bool) returns (pool: Option<nat>)
      requires Valid() && address > 0
      modifies this
      ensures Valid()
      ensures pageSize == old(pageSize) && maxPagesReserved == old(maxPagesReserved)
      ensures maxPagesMapped == old(maxPagesMapped) && pagesMapped == old(pagesMapped)
      ensures var amount := BytesToPage(size, pageSize);
        if FirstFreeSlot(old(pools)).None? || old(pagesReserved) + amount > maxPagesReserved then
          pool == None && pools == old(pools) && pagesReserved == old(pagesReserved)
        else
          pagesReserved == old(pagesReserved) + amount
          && (reserveOk && commitOk ==> pool == FirstFreeSlot(old(pools)))
          && (!(reserveOk && commitOk) ==> pool == None && pools == old(pools))
      ensures pool.Some? ==> pools == old(pools)[pool.value := NewPool(address, BytesToPage(size, pageSize), pageSize)]
    {
      var slot := FindFreeSlot();
      if slot == |pools| {
        return None;
      }
      var amount := BytesToPage(size, pageSize);
      var newReserved := pagesReserved + amount;
      if newReserved > maxPagesReserved {
        return None;
      }
      pagesReserved := newReserved;
      if !reserveOk || !commitOk {
        return None;
      }
      var p := NewPool(address, amount, pageSize);
      NewPoolValid(address, amount, pageSize);
      SumsUpdate(pools, slot, p);
      pools := pools[slot := p];
      pool := Some(slot);
    }

    /**
     * vmm_commit_pages: false for a null pool, when the global mapped count
     * plus the request's pages would pass max_pages_mapped, or when the
     * range, whose start is rounded up to a page, ends past the pool's
     * pages. Otherwise alter_pages commits the runs of uncommitted pages
     * and, when one succeeded, the counts are recomputed and info holds
     * the range in bytes. The result is true exactly when the platform
     * accepts every run; at a refusal the runs before it stay committed.
     */
    method CommitPages(pool: Option<nat>, startIndex: nat, size: nat, platform: (nat, nat) -> bool)
      returns (ok: bool, info: Option<CommitInfo>)
      requires Valid() && (pool.Some? ==> pool.value < |pools|)
      modifies this
      ensures Valid()
      ensures pageSize == old(pageSize) && pagesReserved == old(pagesReserved)
      ensures maxPagesReserved == old(maxPagesReserved) && maxPagesMapped == old(maxPagesMapped)
      ensures |pools| == old(|pools|)
      ensures var amount := BytesToPage(size, pageSize);
        var first := BytesToPage(startIndex, pageSize);
        pool.None? || old(pagesMapped) + amount > maxPagesMapped
        || first + amount > old(pools)[pool.value].pagesReserved ==>
          !ok && info == None && pools == old(pools) && pagesMapped == old(pagesMapped)
      ensures var amount := BytesToPage(size, pageSize);
        var first := BytesToPage(startIndex, pageSize);
        ok <==> (pool.Some? && old(pagesMapped) + amount <= maxPagesMapped
          && RunsAccepted(old(pools)[pool.value].pages, first, amount, true, platform))
      ensures var amount := BytesToPage(size, pageSize);
        var first := BytesToPage(startIndex, pageSize);
        info.Some? <==> (pool.Some? && old(pagesMapped) + amount <= maxPagesMapped
          && FirstRunAccepted(old(pools)[pool.value].pages, first, amount, true, platform))
      ensures ok ==>
        var first := BytesToPage(startIndex, pageSize);
        var amount := BytesToPage(size, pageSize);
        pool.Some? && pools[pool.value].pages == FillBits(old(pools)[pool.value].pages, true, first, first + amount)
      ensures !ok && info.Some? ==>
        pool.Some? && pools[pool.value].pages == FilledToRefusal(old(pools)[pool.value].pages,
          BytesToPage(startIndex, pageSize), BytesToPage(size, pageSize), true, platform)
      ensures info.Some? ==> info.value == CommitInfo(PageToBytes(BytesToPage(startIndex, pageSize), pageSize),
                                                       PageToBytes(BytesToPage(size, pageSize), pageSize))
      ensures info.None? ==> pools == old(pools) && pagesMapped == old(pagesMapped)
      ensures info.Some? ==> (pool.Some? && Recounted(old(pools)[pool.value], pools[pool.value], pageSize)
        && pagesMapped + old(pools)[pool.value].pagesMapped == old(pagesMapped) + pools[pool.value].pagesMapped)
      ensures pool.Some? ==> forall i :: 0 <= i < |pools| && i != pool.value ==> pools[i] == old(pools)[i]
    {
      if pool.None? {
        return false, None;
      }
      var amount := BytesToPage(size, pageSize);
      if pagesMapped + amount > maxPagesMapped {
        return false, None;
      }
      var first := BytesToPage(startIndex, pageSize);
      if first + amount > pools[pool.value].pagesReserved {
        return false, None;
      }
      ok, info := AlterAndRecount(pool.value, first, amount, true, platform);
    }

    /**
     * vmm_decommit_pages: as commit, without the global limit check, and
     * with the runs of committed pages decommitted. The global mapped count
     * never grows. The result is true exactly when the platform accepts
     * every run; at a refusal the runs before it stay decommitted.
     */
    method DecommitPages(pool: Option<nat>, startIndex: nat, size: nat, platform: (nat, nat) -> bool)
      returns (ok: bool, info: Option<CommitInfo>)
      requires Valid() && (pool.Some? ==> pool.value < |pools|)
      modifies this
      ensures Valid()
      ensures pageSize == old(pageSize) && pagesReserved == old(pagesReserved)
      ensures maxPagesReserved == old(maxPagesReserved) && maxPagesMapped == old(maxPagesMapped)
      ensures |pools| == old(|pools|)
      ensures pagesMapped <= old(pagesMapped)
      ensures var amount := BytesToPage(size, pageSize);
        var first := BytesToPage(startIndex, pageSize);
        pool.None? || first + amount > old(pools)[pool.value].pagesReserved ==>
          !ok && info == None && pools == old(pools) && pagesMapped == old(pagesMapped)
      ensures var amount := BytesToPage(size, pageSize);
        var first := BytesToPage(startIndex, pageSize);
        ok <==> (pool.Some?
          && RunsAccepted(old(pools)[pool.value].pages, first, amount, false, platform))
      ensures var amount := BytesToPage(size, pageSize);
        var first := BytesToPage(startIndex, pageSize);
        info.Some? <==> (pool.Some?
          && FirstRunAccepted(old(pools)[pool.value].pages, first, amount, false, platform))
      ensures ok ==>
        var first := BytesToPage(startIndex, pageSize);
        var amount := BytesToPage(size, pageSize);
        pool.Some? && pools[pool.value].pages == FillBits(old(pools)[pool.value].pages, false, first, first + amount)
      ensures !ok && info.Some? ==>
        pool.Some? && pools[pool.value].pages == FilledToRefusal(old(pools)[pool.value].pages,
          BytesToPage(startIndex, pageSize), BytesToPage(size, pageSize), false, platform)
      ensures info.Some? ==> info.value == CommitInfo(PageToBytes(BytesToPage(startIndex, pageSize), pageSize),
                                                       PageToBytes(BytesToPage(size, pageSize), pageSize))
      ensures info.None? ==> pools == old(pools) && pagesMapped == old(pagesMapped)
      ensures info.Some? ==> (pool.Some? && Recounted(old(pools)[pool.value], pools[pool.value], pageSize)
        && pagesMapped + old(pools)[pool.value].pagesMapped == old(pagesMapped) + pools[pool.value].pagesMapped)
      ensures pool.Some? ==> forall i :: 0 <= i < |pools| && i != pool.value ==> pools[i] == old(pools)[i]
    {
      if pool.None? {
        return false, None;
      }
      var amount := BytesToPage(size, pageSize);
      var first := BytesToPage(startIndex, pageSize);
      if first + amount > pools[pool.value].pagesReserved {
        return false, None;
      }
      ok, info := AlterAndRecount(pool.value, first, amount, false, platform);
    }

    /**
     * The shared tail of commit and decommit: alter_pages over the pool's
     * range and, when some run changed, info and recalc_mapped_size. A
     * commit raises the global mapped count by at most the range's pages, a
     * decommit never raises it. Success is exactly every run accepted, and
     * something changed exactly when the first run was accepted.
     */
    method AlterAndRecount(p: nat, first: nat, amount: nat, commit: bool, platform: (nat, nat) -> bool)
      returns (ok: bool, info: Option<CommitInfo>)
      requires Valid() && p < |pools| && first + amount <= pools[p].pagesReserved
      requires commit ==> pagesMapped + amount <= maxPagesMapped
      modifies this
      ensures Valid()
      ensures pageSize == old(pageSize) && pagesReserved == old(pagesReserved)
      ensures maxPagesReserved == old(maxPagesReserved) && maxPagesMapped == old(maxPagesMapped)
      ensures |pools| == old(|pools|)
      ensures commit ==> pagesMapped <= old(pagesMapped) + amount
      ensures !commit ==> pagesMapped <= old(pagesMapped)
      ensures ok <==> RunsAccepted(old(pools)[p].pages, first, amount, commit, platform)
      ensures info.Some? <==> FirstRunAccepted(old(pools)[p].pages, first, amount, commit, platform)
      ensures ok ==> pools[p].pages == FillBits(old(pools)[p].pages, commit, first, first + amount)
      ensures !ok && info.Some? ==> pools[p].pages == FilledToRefusal(old(pools)[p].pages, first, amount, commit, platform)
      ensures info.Some? ==> info.value == CommitInfo(PageToBytes(first, pageSize), PageToBytes(amount, pageSize))
      ensures info.Some? ==> (Recounted(old(pools)[p], pools[p], pageSize)
        && pagesMapped + old(pools)[p].pagesMapped == old(pagesMapped) + pools[p].pagesMapped)
      ensures info.None? ==> pools == old(pools) && pagesMapped == old(pagesMapped)
      ensures forall i :: 0 <= i < |pools| && i != p ==> pools[i] == old(pools)[i]
    {
      var bits := pools[p].pages;
      var changed, after, calls, failed;
      ghost var remaining;
      ok, changed, after, calls, failed, remaining := AlterPages(bits, first, amount, commit, platform);
      AlterOutcome(platform, Runs(bits, first, first + amount, !commit), calls, failed, remaining);
      info := None;
      if changed {
        info := Some(CommitInfo(PageToBytes(first, pageSize), PageToBytes(amount, pageSize)));
        AlterCount(bits, commit, first, if ok then first + amount else failed.value.0, first + amount);
        RecalcMappedSize(p, after);
      }
    }

    /**
     * The pool's bits become `bits` and recalc_mapped_size recounts: the
     * pool's mapped pages are its committed pages, and the global count
     * moves by the difference.
     */
    method RecalcMappedSize(p: nat, bits: seq<bool>)
      requires Valid() && p < |pools| && |bits| == pools[p].pagesReserved
      requires pagesMapped + CountTrue(bits) <= maxPagesMapped + pools[p].pagesMapped
      modifies this
      ensures Valid()
      ensures pageSize == old(pageSize) && pagesReserved == old(pagesReserved)
      ensures maxPagesReserved == old(maxPagesReserved) && maxPagesMapped == old(maxPagesMapped)
      ensures pools == old(pools)[p := old(pools)[p].(pages := bits, pagesMapped := CountTrue(bits),
                                                     memoryMapped := PageToBytes(CountTrue(bits), pageSize))]
      ensures pagesMapped + old(pools)[p].pagesMapped == old(pagesMapped) + CountTrue(bits)
    {
      var mapped := CountTrue(bits);
      var q := pools[p].(pages := bits, pagesMapped := mapped, memoryMapped := PageToBytes(mapped, pageSize));
      SumsBound(pools, p);
      SumsUpdate(pools, p, q);
      pagesMapped := pagesMapped - pools[p].pagesMapped + mapped;
      pools := pools[p := q];
    }

    /**
     * vmm_release_page_pool: false for a null pool. When the platform
     * releases the memory, the pool's reserved and mapped pages leave the
     * global counts and its record is zeroed, free for reuse.
     */
    method ReleasePagePool(pool: Option<nat>, releaseOk: bool) returns (ok: bool)
      requires Valid() && (pool.Some? ==> pool.value < |pools|)
      modifies this
      ensures Valid()
      ensures pageSize == old(pageSize)
      ensures maxPagesReserved == old(maxPagesReserved) && maxPagesMapped == old(maxPagesMapped)
      ensures ok <==> pool.Some? && releaseOk
      ensures ok ==> pools == old(pools)[pool.value := EMPTY]
      ensures ok ==> pagesReserved + old(pools)[pool.value].pagesReserved == old(pagesReserved)
      ensures ok ==> pagesMapped + old(pools)[pool.value].pagesMapped == old(pagesMapped)
      ensures !ok ==> pools == old(pools) && pagesReserved == old(pagesReserved) && pagesMapped == old(pagesMapped)
    {
      if pool.None? || !releaseOk {
        return false;
      }
      var p := pool.value;
      SumsBound(pools, p);
      SumsUpdate(pools, p, EMPTY);
      pagesReserved := pagesReserved - pools[p].pagesReserved;
      pagesMapped := pagesMapped - pools[p].pagesMapped;
      pools := pools[p := EMPTY];
      ok := true;
    }
  }

  /** A released record is the first free one unless an earlier one is free. */
  lemma ReleasedSlotReused(ps: seq<Pool>, i: nat)
    requires i < |ps|
    ensures FirstFreeSlot(ps[i := EMPTY]).Some?
    ensures FirstFreeSlot(ps[i := EMPTY]).value <= i
  {
    var r := FirstFreeSlot(ps[i := EMPTY]);
    assert ps[i := EMPTY][i].base == 0;
  }

  /**
   * Five pages committed, then pages 0, 2 and 4 decommitted, leave 2 mapped;
   * committing page 2 again gives 3, and decommitting page 0 a second time
   * leaves 3.
   */
  lemma SwissCheese()
    ensures var all := FillBits(seq(5, _ => false), true, 0, 5);
      var holes := FillBits(FillBits(FillBits(all, false, 0, 1), false, 2, 3), false, 4, 5);
      CountTrue(holes) == 2
      && CountTrue(FillBits(holes, true, 2, 3)) == 3
      && CountTrue(FillBits(FillBits(holes, true, 2, 3), false, 0, 1)) == 3
  {
    var holes := [false, true, false, true, false];
    assert FillBits(FillBits(FillBits(FillBits(seq(5, _ => false), true, 0, 5), false, 0, 1), false, 2, 3), false, 4, 5) == holes;
    assert FillBits(holes, true, 2, 3) == [false, true, true, true, false];
    assert FillBits([false, true, true, true, false], false, 0, 1) == [false, true, true, true, false];
    assert [false, true, true, true, false][1..] == [true, true, true, false];
    assert [true, true, true, false][1..] == [true, true, false];
    assert [true, true, false][1..] == [true, false];
    assert [true, false][1..] == [false];
    assert holes[1..] == [true, false, true, false];
    assert [true, false, true, false][1..] == [false, true, false];
    assert [false, true, false][1..] == [true, false];
    assert [false][1..] == [];
  }

  /**
   * Pages 0-1 committed, then pages 1-2: page 1 is not counted twice, and
   * 3 pages are mapped.
   */
  lemma OverlappingCommits()
    ensures CountTrue(FillBits(FillBits(seq(4, _ => false), true, 0, 2), true, 1, 3)) == 3
  {
    var r := [true, true, true, false];
    assert FillBits(FillBits(seq(4, _ => false), true, 0, 2), true, 1, 3) == r;
    assert r[1..] == [true, true, false];
    assert [true, true, false][1..] == [true, false];
    assert [true, false][1..] == [false];
    assert [false][1..] == [];
  }

  // ------------------------------------------------------------ as written

  /** page_to_bytes as written: pages * page_size is a u32 product, widened after it wraps. */
  function PageToBytesAsWritten(pages: nat, pageSize: nat): nat
  {
    (pages * pageSize) % U32_LIMIT
  }

  /**
   * 2^20 pages of 4096 bytes, a 4 GiB pool, come out as 0 bytes as
   * written; the intended product is 2^32.
   */
  lemma PageToBytesWraps()
    ensures PageToBytesAsWritten(0x10_0000, 4096) == 0
    ensures PageToBytes(0x10_0000, 4096) == U32_LIMIT
  {
  }
}
