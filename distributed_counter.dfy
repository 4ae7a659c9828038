/** The distributed counter (services/distributed_counter.go): the Redis key
    short_code_counter is the fast copy, the single MongoDB counter document
    the durable copy, and the Redis stream counter_replication carries every
    increment from the first to the second. Each driver call that can fail
    takes a flag saying whether it does. */
module Counter {
  import opened Wrappers
  import opened GoRuntime
  import opened Errors

  /** The `counter` field of a stream entry as the replication tick sees it:
      an int64, a string (what Redis hands back for every value written with
      XADD), absent, or of some other type. */
  datatype CounterField = IntField(i: Int64) | StrField(s: string) | Missing | OtherField

  /** A stream entry; its position in the stream stands for its ID. */
  datatype StreamRecord = StreamRecord(counter: CounterField, timestamp: int)

  /** XREAD's COUNT. */
  const BatchSize: nat := 100

  const IncrementFailed: string := "failed to increment counter in Redis: "
  const GetFailed: string := "failed to get counter from Redis: "
  const CheckFailed: string := "failed to check counter in MongoDB: "
  const InsertFailed: string := "failed to initialize counter in MongoDB: "
  const SetFailed: string := "failed to set counter in Redis: "
  const FindFailed: string := "failed to get counter from MongoDB: "
  const ReadFailed: string := "failed to read from stream: "

  /** What Redis answers INCR on a key already at the largest int64. */
  const IncrOverflow: Error := Other("ERR increment or decrement would overflow")

  /** INCR treats a missing key as 0. */
  function FastValue(fast: Option<Int64>): (n: int)
    ensures MinInt64 <= n <= MaxInt64
    ensures fast.None? ==> n == 0
    ensures fast.Some? ==> n == fast.value
  {
    if fast.Some? then fast.value else 0
  }

  /** The counter a replication tick takes from an entry: an int64 as it is,
      a string through fmt.Sscanf "%d", nothing otherwise. */
  function CounterOf(f: CounterField): (c: Option<Int64>)
    ensures f.IntField? ==> c == Some(f.i)
    ensures f.Missing? || f.OtherField? ==> c.None?
  {
    match f
    case IntField(v) => Some(v)
    case StrField(s) => ScanInt64(s)
    case _ => None
  }

  /** The entry GetNextCounter appends for the value v: go-redis writes the
      int64 as decimal text in a string field, signed exactly when v is
      negative; IncrementRecordCounter reads it back. */
  function IncrementRecord(v: Int64, nowUnix: int): (r: StreamRecord)
    ensures r.counter.StrField? && |r.counter.s| > 0 && (r.counter.s[0] == '-' <==> v < 0)
    ensures r.timestamp == nowUnix
  {
    StreamRecord(StrField(FormatInt64(v)), nowUnix)
  }

  /** An appended entry replicates exactly the value that was issued. */
  lemma IncrementRecordCounter(v: Int64, nowUnix: int)
    ensures CounterOf(IncrementRecord(v, nowUnix).counter) == Some(v)
  {
    ScanFormatRoundTrip(v);
  }

  /** Whether the tick upserts (and then acks) the entry at position j; the
      positions in `fails` are those whose UpdateOne fails. */
  predicate Replicable(s: seq<StreamRecord>, j: nat, fails: set<nat>)
  {
    j < |s| && CounterOf(s[j].counter).Some? && j !in fails
  }

  /** The durable value after the entries at positions lo .. hi-1 are
      processed in order, starting from d: every replicable entry overwrites
      it, nothing else touches it. */
  function DurableRange(d: Option<Int64>, s: seq<StreamRecord>, lo: nat, hi: nat, fails: set<nat>): (r: Option<Int64>)
    requires lo <= hi <= |s|
    ensures r == d || exists j :: lo <= j < hi && Replicable(s, j, fails) && r == CounterOf(s[j].counter)
    decreases hi - lo
  {
    if hi == lo then d
    else if Replicable(s, hi - 1, fails) then CounterOf(s[hi - 1].counter)
    else DurableRange(d, s, lo, hi - 1, fails)
  }

  /** The positions in lo .. hi-1 a tick acks. */
  function AckedRange(s: seq<StreamRecord>, lo: nat, hi: nat, fails: set<nat>): set<nat>
  {
    set j: nat | lo <= j < hi && Replicable(s, j, fails)
  }

  /** How many entries XREAD from ID "0" with COUNT 100 returns. */
  function ReadCount(len: nat): (n: nat)
    ensures n <= len && n <= BatchSize
    ensures n == len || n == BatchSize
  {
    if len < BatchSize then len else BatchSize
  }

  /** Last write wins: the durable value is the counter of the last
      replicable entry, with no monotonic check. */
  lemma {:induction false} LastWriteWins(d: Option<Int64>, s: seq<StreamRecord>, lo: nat, hi: nat, fails: set<nat>, j: nat)
    requires lo <= j < hi <= |s| && Replicable(s, j, fails)
    requires forall k :: j < k < hi ==> !Replicable(s, k, fails)
    ensures DurableRange(d, s, lo, hi, fails) == CounterOf(s[j].counter)
    decreases hi - lo
  {
    if j < hi - 1 {
      LastWriteWins(d, s, lo, hi - 1, fails, j);
    }
  }

  /** A range with nothing replicable leaves the durable value alone. */
  lemma {:induction false} NothingReplicable(d: Option<Int64>, s: seq<StreamRecord>, lo: nat, hi: nat, fails: set<nat>)
    requires lo <= hi <= |s|
    requires forall k :: lo <= k < hi ==> !Replicable(s, k, fails)
    ensures DurableRange(d, s, lo, hi, fails) == d
    decreases hi - lo
  {
    if lo < hi {
      NothingReplicable(d, s, lo, hi - 1, fails);
    }
  }

  /** Once a range holds a replicable entry, the starting value is forgotten. */
  lemma {:induction false} StartForgotten(d1: Option<Int64>, d2: Option<Int64>, s: seq<StreamRecord>, lo: nat, hi: nat, fails: set<nat>)
    requires lo <= hi <= |s|
    requires exists k :: lo <= k < hi && Replicable(s, k, fails)
    ensures DurableRange(d1, s, lo, hi, fails) == DurableRange(d2, s, lo, hi, fails)
    decreases hi - lo
  {
    if !Replicable(s, hi - 1, fails) {
      StartForgotten(d1, d2, s, lo, hi - 1, fails);
    }
  }

  /** Replaying a range gives what replaying it once gave: a second tick over
      the same entries with the same outcomes changes nothing. */
  lemma ReplayIdempotent(d: Option<Int64>, s: seq<StreamRecord>, lo: nat, hi: nat, fails: set<nat>)
    requires lo <= hi <= |s|
    ensures DurableRange(DurableRange(d, s, lo, hi, fails), s, lo, hi, fails) == DurableRange(d, s, lo, hi, fails)
  {
    if exists k :: lo <= k < hi && Replicable(s, k, fails) {
      StartForgotten(DurableRange(d, s, lo, hi, fails), d, s, lo, hi, fails);
    } else {
      NothingReplicable(d, s, lo, hi, fails);
      NothingReplicable(DurableRange(d, s, lo, hi, fails), s, lo, hi, fails);
    }
  }

  /** Processing lo .. mid-1 and then mid .. hi-1 is processing lo .. hi-1. */
  lemma {:induction false} RangesCompose(d: Option<Int64>, s: seq<StreamRecord>, lo: nat, mid: nat, hi: nat, fails: set<nat>)
    requires lo <= mid <= hi <= |s|
    ensures DurableRange(DurableRange(d, s, lo, mid, fails), s, mid, hi, fails) == DurableRange(d, s, lo, hi, fails)
    decreases hi - mid
  {
    if mid < hi {
      var upTo := DurableRange(d, s, lo, mid, fails);
      RangesCompose(d, s, lo, mid, hi - 1, fails);
      if Replicable(s, hi - 1, fails) {
        assert DurableRange(upTo, s, mid, hi, fails) == CounterOf(s[hi - 1].counter);
        assert DurableRange(d, s, lo, hi, fails) == CounterOf(s[hi - 1].counter);
      } else {
        assert DurableRange(upTo, s, mid, hi, fails) == DurableRange(upTo, s, mid, hi - 1, fails);
        assert DurableRange(d, s, lo, hi, fails) == DurableRange(d, s, lo, hi - 1, fails);
      }
    }
  }

  /** The entries acknowledged over lo .. mid-1 and then mid .. hi-1 are
      those acknowledged over lo .. hi-1. */
  lemma AckedCompose(s: seq<StreamRecord>, lo: nat, mid: nat, hi: nat, fails: set<nat>)
    requires lo <= mid <= hi
    ensures AckedRange(s, lo, mid, fails) + AckedRange(s, mid, hi, fails) == AckedRange(s, lo, hi, fails)
  {
    forall j | j in AckedRange(s, lo, hi, fails)
      ensures j in AckedRange(s, lo, mid, fails) + AckedRange(s, mid, hi, fails)
    {
      if j < mid { assert j in AckedRange(s, lo, mid, fails); } else { assert j in AckedRange(s, mid, hi, fails); }
    }
  }

  /** A lower counter read after a higher one replaces it: entries 5 then 3
      leave 3. */
  lemma NoMonotonicCheck()
    ensures DurableRange(Some(9), [IncrementRecord(5, 0), IncrementRecord(3, 0)], 0, 2, {}) == Some(3)
  {
    IncrementRecordCounter(3, 0);
  }

  /** Entries without a parsable counter are skipped: "12x" parses as 12 and
      "1_0" as 1 (Sscanf's `%d` stops at the first non-digit), "x" and "" do
      not parse, and neither do an absent field or one of another type. */
  lemma UnparsableSkipped()
    ensures CounterOf(StrField("12x")) == Some(12)
    ensures CounterOf(StrField("x")) == None && CounterOf(StrField("")) == None
    ensures CounterOf(StrField("1_0")) == Some(1)
    ensures DurableRange(Some(7), [StreamRecord(Missing, 0), StreamRecord(OtherField, 0), StreamRecord(StrField("x"), 0)], 0, 3, {}) == Some(7)
  {
    assert ScanDigitRun("12x") == "12";
    assert "12"[..1] == "1";
    assert DecimalValue("12") == 12;
    assert ScanDigitRun("1_0") == "1";
    assert ScanDigitRun("x") == "";
    var s := [StreamRecord(Missing, 0), StreamRecord(OtherField, 0), StreamRecord(StrField("x"), 0)];
    NothingReplicable(Some(7), s, 0, 3, {});
  }

  class DistributedCounter {
    /** The Redis key short_code_counter. */
    var fast: Option<Int64>
    /** The counter field of the MongoDB counter document. */
    var durable: Option<Int64>
    /** The Redis stream counter_replication; it is never trimmed. */
    var stream: seq<StreamRecord>
    /** The positions an XACK was sent for. */
    var acked: set<nat>

    constructor (fast: Option<Int64>, durable: Option<Int64>, stream: seq<StreamRecord>, acked: set<nat>)
      ensures this.fast == fast && this.durable == durable && this.stream == stream && this.acked == acked
    {
      this.fast := fast;
      this.durable := durable;
      this.stream := stream;
      this.acked := acked;
    }

    /** GetNextCounter: INCR, then XADD of the new value; a failing XADD is
        only logged. A failing INCR, or one that would overflow, changes
        nothing. */
    method GetNextCounter(nowUnix: int, incrFails: bool, xaddFails: bool) returns (v: Int64, err: Error)
      modifies this
      ensures durable == old(durable) && acked == old(acked)
      ensures incrFails ==> v == 0 && err == Wrapped(IncrementFailed, StoreFault)
      ensures !incrFails && FastValue(old(fast)) == MaxInt64 ==> v == 0 && err == Wrapped(IncrementFailed, IncrOverflow)
      ensures err != Nil ==> fast == old(fast) && stream == old(stream)
      ensures !incrFails && FastValue(old(fast)) < MaxInt64 ==>
        err == Nil && v == FastValue(old(fast)) + 1 && fast == Some(v) &&
        stream == old(stream) + (if xaddFails then [] else [IncrementRecord(v, nowUnix)])
    {
      if incrFails {
        return 0, Wrapped(IncrementFailed, StoreFault);
      }
      if FastValue(fast) == MaxInt64 {
        return 0, Wrapped(IncrementFailed, IncrOverflow);
      }
      v := FastValue(fast) + 1;
      fast := Some(v);
      if !xaddFails {
        stream := stream + [IncrementRecord(v, nowUnix)];
      }
      return v, Nil;
    }

    /** InitializeCounter: create the document with 0 when there is none,
        then copy the document's value to Redis. A failed SET after a
        successful insert keeps the new document. */
    method InitializeCounter(findFails: bool, insertFails: bool, setFails: bool) returns (err: Error)
      modifies this
      ensures stream == old(stream) && acked == old(acked)
      ensures findFails ==> err == Wrapped(CheckFailed, StoreFault) && fast == old(fast) && durable == old(durable)
      ensures !findFails && old(durable).None? && insertFails ==>
        err == Wrapped(InsertFailed, StoreFault) && fast == old(fast) && durable == old(durable)
      ensures !findFails && (old(durable).Some? || !insertFails) ==>
        durable == (if old(durable).Some? then old(durable) else Some(0)) &&
        (setFails ==> err == Wrapped(SetFailed, StoreFault) && fast == old(fast)) &&
        (!setFails ==> err == Nil && fast == durable)
    {
      if findFails {
        return Wrapped(CheckFailed, StoreFault);
      }
      if durable.None? {
        if insertFails {
          return Wrapped(InsertFailed, StoreFault);
        }
        durable := Some(0);
      }
      if setFails {
        return Wrapped(SetFailed, StoreFault);
      }
      fast := durable;
      return Nil;
    }

    /** initializeFromMongoDB: copy the document's value to Redis, or
        bootstrap with InitializeCounter (and its own FindOne) when there is
        no document. */
    method InitializeFromMongoDB(findFails: bool, initFindFails: bool, insertFails: bool, setFails: bool)
      returns (v: Int64, err: Error)
      modifies this
      ensures stream == old(stream) && acked == old(acked)
      ensures err != Nil ==> v == 0
      ensures findFails ==> err == Wrapped(FindFailed, StoreFault) && fast == old(fast) && durable == old(durable)
      ensures !findFails && old(durable).Some? ==>
        (durable == old(durable) &&
         (setFails ==> err == Wrapped(SetFailed, StoreFault) && fast == old(fast)) &&
         (!setFails ==> err == Nil && v == old(durable).value && fast == old(durable)))
      ensures !findFails && old(durable).None? ==>
        (initFindFails ==> err == Wrapped(CheckFailed, StoreFault) && fast == old(fast) && durable == old(durable)) &&
        (!initFindFails && insertFails ==> err == Wrapped(InsertFailed, StoreFault) && fast == old(fast) && durable == old(durable)) &&
        (!initFindFails && !insertFails ==>
          (durable == Some(0) &&
           (setFails ==> err == Wrapped(SetFailed, StoreFault) && fast == old(fast)) &&
           (!setFails ==> err == Nil && v == 0 && fast == Some(0))))
    {
      if findFails {
        return 0, Wrapped(FindFailed, StoreFault);
      }
      if durable.None? {
        err := InitializeCounter(initFindFails, insertFails, setFails);
        return 0, err;
      }
      if setFails {
        return 0, Wrapped(SetFailed, StoreFault);
      }
      fast := durable;
      return durable.value, Nil;
    }

    /** GetCurrentCounter: GET the Redis key. A missing key (redis.Nil) falls
        back to initializeFromMongoDB; any other GET failure is returned
        wrapped and nothing is touched. */
    method GetCurrentCounter(getFails: bool, findFails: bool, initFindFails: bool, insertFails: bool, setFails: bool)
      returns (v: Int64, err: Error)
      modifies this
      ensures stream == old(stream) && acked == old(acked)
      ensures getFails ==>
        v == 0 && err == Wrapped(GetFailed, StoreFault) && fast == old(fast) && durable == old(durable)
      ensures !getFails && old(fast).Some? ==>
        v == old(fast).value && err == Nil && fast == old(fast) && durable == old(durable)
      // the key is missing: the cases of InitializeFromMongoDB
      ensures !getFails && old(fast).None? ==>
        (err != Nil ==> v == 0) &&
        (findFails ==> err == Wrapped(FindFailed, StoreFault) && fast == old(fast) && durable == old(durable)) &&
        (!findFails && old(durable).Some? ==>
          (durable == old(durable) &&
           (setFails ==> err == Wrapped(SetFailed, StoreFault) && fast == old(fast)) &&
           (!setFails ==> err == Nil && v == old(durable).value && fast == old(durable)))) &&
        (!findFails && old(durable).None? ==>
          (initFindFails ==> err == Wrapped(CheckFailed, StoreFault) && fast == old(fast) && durable == old(durable)) &&
          (!initFindFails && insertFails ==> err == Wrapped(InsertFailed, StoreFault) && fast == old(fast) && durable == old(durable)) &&
          (!initFindFails && !insertFails ==>
            (durable == Some(0) &&
             (setFails ==> err == Wrapped(SetFailed, StoreFault) && fast == old(fast)) &&
             (!setFails ==> err == Nil && v == 0 && fast == Some(0)))))
      // with every call succeeding the answer is the key, else the document, else 0
      ensures !getFails && !findFails && !initFindFails && !insertFails && !setFails ==>
        err == Nil && fast == Some(v) &&
        v == (if old(fast).Some? then old(fast).value else if old(durable).Some? then old(durable).value else 0)
    {
      if getFails {
        return 0, Wrapped(GetFailed, StoreFault);
      }
      if fast.None? {
        v, err := InitializeFromMongoDB(findFails, initFindFails, insertFails, setFails);
        return;
      }
      return fast.value, Nil;
    }

    /** ReplicateToMongoDB, one tick: XREAD from ID "0" with COUNT 100, so the
        oldest entries of the stream whatever was acked before; upsert each
        parsable counter, then ack it. Positions in upsertFails are entries
        whose UpdateOne fails: they are neither written nor acked. */
    method ReplicateToMongoDB(readFails: bool, upsertFails: set<nat>) returns (err: Error)
      modifies this
      ensures fast == old(fast) && stream == old(stream)
      ensures readFails ==> err == Wrapped(ReadFailed, StoreFault) && durable == old(durable) && acked == old(acked)
      ensures !readFails ==>
        (err == Nil &&
         durable == DurableRange(old(durable), stream, 0, ReadCount(|stream|), upsertFails) &&
         acked == old(acked) + AckedRange(stream, 0, ReadCount(|stream|), upsertFails))
    {
      if readFails {
        return Wrapped(ReadFailed, StoreFault);
      }
      var n := ReadCount(|stream|);
      var i := 0;
      while i < n
        invariant 0 <= i <= n <= |stream|
        invariant durable == DurableRange(old(durable), stream, 0, i, upsertFails)
        invariant acked == old(acked) + AckedRange(stream, 0, i, upsertFails)
        invariant fast == old(fast) && stream == old(stream)
      {
        var counter := CounterOf(stream[i].counter);
        if counter.Some? && i !in upsertFails {
          durable := counter;
          acked := acked + {i};
        }
        assert AckedRange(stream, 0, i + 1, upsertFails) ==
          AckedRange(stream, 0, i, upsertFails) + (if Replicable(stream, i, upsertFails) then {i} else {});
        i := i + 1;
      }
      return Nil;
    }

    /** The corrected tick: XREAD from the ID after the last entry already
        read (`cursor`, kept by the caller), so each tick moves on to newer
        entries. It returns the position to read from next. */
    method ReplicateFrom(cursor: nat, readFails: bool, upsertFails: set<nat>) returns (err: Error, next: nat)
      requires cursor <= |stream|
      modifies this
      ensures fast == old(fast) && stream == old(stream)
      ensures readFails ==> err == Wrapped(ReadFailed, StoreFault) && next == cursor && durable == old(durable) && acked == old(acked)
      ensures !readFails ==>
        (err == Nil && next == cursor + ReadCount(|stream| - cursor) &&
         durable == DurableRange(old(durable), stream, cursor, next, upsertFails) &&
         acked == old(acked) + AckedRange(stream, cursor, next, upsertFails))
    {
      if readFails {
        return Wrapped(ReadFailed, StoreFault), cursor;
      }
      next := cursor + ReadCount(|stream| - cursor);
      var i := cursor;
      while i < next
        invariant cursor <= i <= next <= |stream|
        invariant durable == DurableRange(old(durable), stream, cursor, i, upsertFails)
        invariant acked == old(acked) + AckedRange(stream, cursor, i, upsertFails)
        invariant fast == old(fast) && stream == old(stream)
      {
        var counter := CounterOf(stream[i].counter);
        if counter.Some? && i !in upsertFails {
          durable := counter;
          acked := acked + {i};
        }
        assert AckedRange(stream, cursor, i + 1, upsertFails) ==
          AckedRange(stream, cursor, i, upsertFails) + (if Replicable(stream, i, upsertFails) then {i} else {});
        i := i + 1;
      }
      return Nil, next;
    }

    /** Corrected ticks repeated until the stream is drained replicate every
        entry from the cursor on, in order. */
    method ReplicateAll(cursor: nat) returns (next: nat)
      requires cursor <= |stream|
      modifies this
      ensures next == |stream|
      ensures fast == old(fast) && stream == old(stream)
      ensures durable == DurableRange(old(durable), stream, cursor, |stream|, {})
      ensures acked == old(acked) + AckedRange(stream, cursor, |stream|, {})
    {
      next := cursor;
      while next < |stream|
        invariant cursor <= next <= |stream|
        invariant fast == old(fast) && stream == old(stream)
        invariant durable == DurableRange(old(durable), stream, cursor, next, {})
        invariant acked == old(acked) + AckedRange(stream, cursor, next, {})
        decreases |stream| - next
      {
        ghost var from := next;
        var err;
        err, next := ReplicateFrom(next, false, {});
        RangesCompose(old(durable), stream, cursor, from, next, {});
        AckedCompose(stream, cursor, from, next, {});
      }
    }
  }

  /** The entries k increments after the value start append: the i-th
      appends the entry for start + i + 1 read at times[i], unless its XADD
      fails (xaddFails[i]). */
  function Appended(start: int, xaddFails: seq<bool>, times: seq<int>): seq<StreamRecord>
    requires |xaddFails| == |times| && MinInt64 <= start && start + |xaddFails| <= MaxInt64
    decreases |xaddFails|
  {
    if xaddFails == [] then []
    else
      var n := |xaddFails| - 1;
      Appended(start, xaddFails[..n], times[..n]) +
        (if xaddFails[n] then [] else [IncrementRecord(start + n + 1, times[n])])
  }

  /** One more increment appends at most its own entry: a stream that held
      the first `m` increments' entries and gains the next one's holds the
      first `m + 1`. */
  lemma AppendedStep(start: int, xaddFails: seq<bool>, times: seq<int>, m: nat,
                     base: seq<StreamRecord>, before: seq<StreamRecord>, after: seq<StreamRecord>)
    requires |xaddFails| == |times| && MinInt64 <= start && start + |xaddFails| <= MaxInt64 && m < |xaddFails|
    requires before == base + Appended(start, xaddFails[..m], times[..m])
    requires after == before + (if xaddFails[m] then [] else [IncrementRecord(start + m + 1, times[m])])
    ensures after == base + Appended(start, xaddFails[..m + 1], times[..m + 1])
  {
    assert xaddFails[..m + 1][..m] == xaddFails[..m] && times[..m + 1][..m] == times[..m];
  }

  /** When every XADD goes through, the i-th entry appended is the one for
      start + i + 1. */
  lemma {:induction false} AppendedAllSucceed(start: int, xaddFails: seq<bool>, times: seq<int>)
    requires |xaddFails| == |times| && MinInt64 <= start && start + |xaddFails| <= MaxInt64
    requires forall i :: 0 <= i < |xaddFails| ==> !xaddFails[i]
    ensures |Appended(start, xaddFails, times)| == |xaddFails|
    ensures forall i :: 0 <= i < |xaddFails| ==> Appended(start, xaddFails, times)[i] == IncrementRecord(start + i + 1, times[i])
    decreases |xaddFails|
  {
    if xaddFails != [] {
      var n := |xaddFails| - 1;
      var fs, ts := xaddFails[..n], times[..n];
      assert forall i :: 0 <= i < n ==> fs[i] == xaddFails[i];
      AppendedAllSucceed(start, fs, ts);
      var prefix := Appended(start, fs, ts);
      var all := prefix + [IncrementRecord(start + n + 1, times[n])];
      assert !xaddFails[n];
      assert Appended(start, xaddFails, times) == all;
      forall i | 0 <= i < |xaddFails|
        ensures all[i] == IncrementRecord(start + i + 1, times[i])
      {
        if i < n {
          assert all[i] == prefix[i] && ts[i] == times[i];
        }
      }
    }
  }

  /** As written, however long a stream of increments 1, 2, ... grows, every
      tick sets the durable value to the 100th. */
  lemma StuckAtHundred(d: Option<Int64>, s: seq<StreamRecord>)
    requires BatchSize <= |s| <= MaxInt64
    requires forall i :: 0 <= i < |s| ==> CounterOf(s[i].counter) == Some(i + 1)
    ensures DurableRange(d, s, 0, ReadCount(|s|), {}) == Some(100)
  {
    assert CounterOf(s[99].counter) == Some(100);
  }

  /** k increments in a row, INCR always succeeding and the i-th XADD failing
      when xaddFails[i]: each returns the next value (counting from 0 when
      the key is missing), so they are strictly increasing and distinct, and
      the Redis counter moves on by k. */
  method IssueMany(dc: DistributedCounter, xaddFails: seq<bool>, times: seq<int>) returns (issued: seq<Int64>)
    requires |xaddFails| == |times| && FastValue(dc.fast) + |xaddFails| <= MaxInt64
    modifies dc
    ensures |issued| == |xaddFails|
    ensures forall i :: 0 <= i < |issued| ==> issued[i] == FastValue(old(dc.fast)) + i + 1
    ensures forall i, j :: 0 <= i < j < |issued| ==> issued[i] < issued[j]
    ensures FastValue(dc.fast) == FastValue(old(dc.fast)) + |issued|
    ensures if |issued| == 0 then dc.fast == old(dc.fast) else dc.fast.Some?
    ensures dc.durable == old(dc.durable) && dc.acked == old(dc.acked)
    ensures dc.stream == old(dc.stream) + Appended(FastValue(old(dc.fast)), xaddFails, times)
  {
    var start := FastValue(dc.fast);
    ghost var base := dc.stream;
    issued := [];
    for m := 0 to |xaddFails|
      invariant |issued| == m
      invariant forall i :: 0 <= i < m ==> issued[i] == start + i + 1
      invariant FastValue(dc.fast) == start + m
      invariant if m == 0 then dc.fast == old(dc.fast) else dc.fast.Some?
      invariant dc.durable == old(dc.durable) && dc.acked == old(dc.acked)
      invariant dc.stream == base + Appended(start, xaddFails[..m], times[..m])
    {
      ghost var before := dc.stream;
      assert FastValue(dc.fast) < MaxInt64;
      var v, err := dc.GetNextCounter(times[m], false, xaddFails[m]);
      assert v == start + m + 1;
      AppendedStep(start, xaddFails, times, m, base, before, dc.stream);
      issued := issued + [v];
    }
    assert xaddFails[..|issued|] == xaddFails && times[..|issued|] == times;
  }

  /** Bootstrap, then k increments: the current counter is d + k, or k on a
      fresh store, whichever XADDs fail. */
  method BootstrapThenCount(dc: DistributedCounter, xaddFails: seq<bool>, times: seq<int>) returns (current: Int64)
    requires |xaddFails| == |times|
    requires (if dc.durable.Some? then dc.durable.value else 0) + |xaddFails| <= MaxInt64
    modifies dc
    ensures current == (if old(dc.durable).Some? then old(dc.durable).value else 0) + |xaddFails|
  {
    var err := dc.InitializeCounter(false, false, false);
    var issued := IssueMany(dc, xaddFails, times);
    current, err := dc.GetCurrentCounter(false, false, false, false, false);
  }

  /** InitializeCounter twice in a row leaves the state it leaves once. */
  method InitializeTwice(fast: Option<Int64>, durable: Option<Int64>, stream: seq<StreamRecord>, acked: set<nat>)
    returns (once: DistributedCounter, twice: DistributedCounter)
    ensures once.fast == twice.fast && once.durable == twice.durable
    ensures once.stream == twice.stream && once.acked == twice.acked
  {
    once := new DistributedCounter(fast, durable, stream, acked);
    var e1 := once.InitializeCounter(false, false, false);
    twice := new DistributedCounter(fast, durable, stream, acked);
    var e2 := twice.InitializeCounter(false, false, false);
    e2 := twice.InitializeCounter(false, false, false);
  }

  /** A fresh store, bootstrapped, then k increments whose XADDs all go
      through at time 0: the stream holds the entries for 1 .. k. */
  method IssueFromFresh(k: nat) returns (dc: DistributedCounter, issued: seq<Int64>)
    requires k <= MaxInt64
    ensures fresh(dc)
    ensures |issued| == k && forall i :: 0 <= i < k ==> issued[i] == i + 1
    ensures dc.fast == Some(k) && dc.durable == Some(0) && dc.acked == {}
    ensures |dc.stream| == k && forall i :: 0 <= i < k ==> dc.stream[i] == IncrementRecord(i + 1, 0)
  {
    dc := new DistributedCounter(None, None, [], {});
    var err := dc.InitializeCounter(false, false, false);
    var noFailures := seq(k, i => false);
    var clock := seq(k, i => 0);
    issued := IssueMany(dc, noFailures, clock);
    AppendedAllSucceed(0, noFailures, clock);
  }

  /** As written: 101 increments on a fresh store, a replication tick, then
      Redis loses the key short_code_counter alone (evicted or deleted), the
      stream staying as it is. The counter is restored from MongoDB at 100,
      and the next increment hands out 101 a second time. */
  method RepeatAfterRedisLoss() returns (issued: seq<Int64>, next: Int64)
    ensures |issued| == 101 && next == issued[100]
  {
    var dc;
    dc, issued := IssueFromFresh(101);
    forall i | 0 <= i < |dc.stream|
      ensures CounterOf(dc.stream[i].counter) == Some(i + 1)
    {
      IncrementRecordCounter(i + 1, 0);
    }
    StuckAtHundred(Some(0), dc.stream);
    var err := dc.ReplicateToMongoDB(false, {});
    assert dc.durable == Some(100);
    dc.fast := None;
    var current;
    current, err := dc.GetCurrentCounter(false, false, false, false, false);
    assert dc.fast == Some(100);
    next, err := dc.GetNextCounter(0, false, false);
  }

  /** With the corrected tick the same events (the key lost, the stream kept) restore the counter at 101, and
      the next increment is new. */
  method NoRepeatAfterRedisLoss() returns (issued: seq<Int64>, next: Int64)
    ensures |issued| == 101 && next == 102
    ensures forall i :: 0 <= i < |issued| ==> issued[i] < next
  {
    var dc;
    dc, issued := IssueFromFresh(101);
    var cursor := dc.ReplicateAll(0);
    CatchUp(Some(0), dc.stream, 0, 101, 0);
    assert dc.durable == Some(101);
    dc.fast := None;
    var current, err := dc.GetCurrentCounter(false, false, false, false, false);
    assert dc.fast == Some(101);
    next, err := dc.GetNextCounter(0, false, false);
  }

  /** After the corrected ticks drain a stream whose last entry was appended
      by GetNextCounter, the durable value is the last value issued. */
  lemma CatchUp(d: Option<Int64>, s: seq<StreamRecord>, cursor: nat, v: Int64, nowUnix: int)
    requires cursor < |s| && s[|s| - 1] == IncrementRecord(v, nowUnix)
    ensures DurableRange(d, s, cursor, |s|, {}) == Some(v)
  {
    IncrementRecordCounter(v, nowUnix);
  }
}
