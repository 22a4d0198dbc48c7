/** The log manager: numbering, chaining, buffering and flushing of log records. */
module LogWriter {
  import opened LogCodec

  const INVALID_LSN := -1

  predicate IsClr(k: LogType) {
    k == CLR_UPDATE || k == CLR_INSERT || k == CLR_DELETE
  }

  /** The record belongs to the chain of a transaction. */
  predicate Own(r: LogRecord, t: int) {
    r.tid == t && !IsClr(r.kind)
  }

  /** The number of the last record of a transaction among the first `n`. */
  function LastLsn(rs: seq<LogRecord>, n: nat, t: int): int
    requires n <= |rs|
  {
    if n == 0 then INVALID_LSN
    else if Own(rs[n - 1], t) then rs[n - 1].lsn
    else LastLsn(rs, n - 1, t)
  }

  /** Records are numbered one by one, and each names the one before it of its transaction. */
  ghost predicate Chained(rs: seq<LogRecord>, base: nat) {
    forall i :: 0 <= i < |rs| ==> ChainedAt(rs, base, i)
  }

  ghost predicate ChainedAt(rs: seq<LogRecord>, base: nat, i: nat)
    requires i < |rs|
  {
    && rs[i].lsn == base + i
    && (!IsClr(rs[i].kind) ==> rs[i].prev == LastLsn(rs, i, rs[i].tid))
    && (!IsClr(rs[i].kind) ==> (rs[i].kind == BEGIN <==> rs[i].prev == INVALID_LSN))
  }

  lemma Increasing(rs: seq<LogRecord>, base: nat, i: nat, j: nat)
    requires Chained(rs, base) && i < j < |rs|
    ensures rs[i].lsn < rs[j].lsn
  {
    assert ChainedAt(rs, base, i) && ChainedAt(rs, base, j);
  }

  lemma {:induction false} LastLsnBelow(rs: seq<LogRecord>, base: nat, n: nat, t: int)
    requires Chained(rs, base) && n <= |rs|
    ensures LastLsn(rs, n, t) == INVALID_LSN || base <= LastLsn(rs, n, t) < base + n
  {
    if n == 0 {
    } else {
      assert ChainedAt(rs, base, n - 1);
      LastLsnBelow(rs, base, n - 1, t);
    }
  }

  lemma {:induction false} LastLsnPrefix(rs: seq<LogRecord>, rs': seq<LogRecord>, n: nat, t: int)
    requires n <= |rs| && rs <= rs'
    ensures LastLsn(rs', n, t) == LastLsn(rs, n, t)
  {
    if n == 0 {
    } else {
      LastLsnPrefix(rs, rs', n - 1, t);
    }
  }

  // ---- following the chain

  /** The numbers met on the way back from a record. */
  ghost function Chain(rs: seq<LogRecord>, base: nat, lsn: int): seq<int>
    requires Chained(rs, base)
    decreases lsn + 1
  {
    if lsn < base || lsn >= base + |rs| then []
    else
      assert ChainedAt(rs, base, lsn - base);
      LastLsnBelow(rs, base, lsn - base, rs[lsn - base].tid);
      [lsn] + if IsClr(rs[lsn - base].kind) then [] else Chain(rs, base, rs[lsn - base].prev)
  }

  /** The records of a transaction, last first. */
  ghost function Backwards(rs: seq<LogRecord>, n: nat, t: int): seq<int>
    requires n <= |rs|
  {
    if n == 0 then []
    else if Own(rs[n - 1], t) then [rs[n - 1].lsn] + Backwards(rs, n - 1, t)
    else Backwards(rs, n - 1, t)
  }

  /** The chain of a transaction visits exactly its records, in reverse. */
  lemma {:induction false} ChainIsBackwards(rs: seq<LogRecord>, base: nat, n: nat, t: int)
    requires Chained(rs, base) && n <= |rs|
    ensures Chain(rs, base, LastLsn(rs, n, t)) == Backwards(rs, n, t)
  {
    if n == 0 {
    } else {
      assert ChainedAt(rs, base, n - 1);
      ChainIsBackwards(rs, base, n - 1, t);
    }
  }

  /** The chain ends at the transaction's BEGIN. */
  lemma {:induction false} ChainEnds(rs: seq<LogRecord>, base: nat, n: nat, t: int)
    requires Chained(rs, base) && n <= |rs| && Backwards(rs, n, t) != []
    ensures var last := Backwards(rs, n, t)[|Backwards(rs, n, t)| - 1];
            base <= last < base + n && rs[last - base].kind == BEGIN && rs[last - base].tid == t
  {
    assert ChainedAt(rs, base, n - 1);
    if Own(rs[n - 1], t) {
      if Backwards(rs, n - 1, t) == [] {
        NoneBefore(rs, base, n - 1, t);
      } else {
        ChainEnds(rs, base, n - 1, t);
      }
    } else {
      ChainEnds(rs, base, n - 1, t);
    }
  }

  lemma {:induction false} NoneBefore(rs: seq<LogRecord>, base: nat, n: nat, t: int)
    requires Chained(rs, base) && n <= |rs| && Backwards(rs, n, t) == []
    ensures LastLsn(rs, n, t) == INVALID_LSN
  {
    if n == 0 {
    } else {
      NoneBefore(rs, base, n - 1, t);
    }
  }

  // ---- the writer

  const LOG_BUFFER_SIZE: nat := 1024 * 4096

  class LogManager {
    var globalLsn: nat
    var buffer: seq<Byte>
    var disk: seq<Byte>
    var soFar: map<int, int>
    ghost const base: nat
    ghost var written: seq<LogRecord>
    ghost var flushed: nat

    ghost predicate Valid()
      reads this
    {
      && ValidLog(written) && Chained(written, base)
      && globalLsn == base + |written| && flushed <= |written|
      && disk + buffer == LogBytes(written) && disk == LogBytes(written[..flushed]) && |buffer| <= LOG_BUFFER_SIZE
      && (forall t :: t in soFar ==> soFar[t] == LastLsn(written, |written|, t) && soFar[t] != INVALID_LSN)
      && (forall t :: t !in soFar ==> LastLsn(written, |written|, t) == INVALID_LSN)
    }

    /** A log manager for an empty log file, numbering from `firstLsn`. */
    constructor (firstLsn: nat)
      ensures Valid() && written == [] && globalLsn == firstLsn
    {
      globalLsn, base, buffer, disk, soFar, written, flushed := firstLsn, firstLsn, [], [], map[], [], 0;
    }

    /** The next record of a transaction's chain. */
    function NextRecord(t: int, kind: LogType, body: Body): LogRecord
      reads this
    {
      LogRecord(kind, globalLsn, t, if t in soFar then soFar[t] else INVALID_LSN, INVALID_LSN, body)
    }

    /** `add_log_to_buffer`. The latch is held already, and flushing a full buffer takes it again: the
        call returns if and only if the record fits in the buffer. */
    method AddToBuffer(r: LogRecord) returns (ok: bool)
      requires ValidRecord(r) && |buffer| <= LOG_BUFFER_SIZE
      modifies this`buffer
      ensures ok <==> old(|buffer|) + TotalLength(r) <= 4_194_304
      ensures buffer == if ok then old(buffer) + Serialize(r) else old(buffer)
    {
      hide Serialize, ValidRecord;
      if |buffer| + TotalLength(r) > LOG_BUFFER_SIZE {
        return false;
      }
      buffer := buffer + Serialize(r);
      return true;
    }

    /** `gen_log_bein`, `gen_log_from_write_set` and `gen_log_commit`. */
    method Append(t: int, kind: LogType, body: Body) returns (ok: bool, lsn: int)
      requires Valid() && globalLsn < 0x8000_0000 && !IsClr(kind)
      requires (kind == BEGIN <==> t !in soFar) && ValidRecord(NextRecord(t, kind, body))
      modifies this
      ensures ok <==> old(|buffer| + TotalLength(NextRecord(t, kind, body))) <= LOG_BUFFER_SIZE
      ensures lsn == old(globalLsn) && disk == old(disk) && flushed == old(flushed)
      ensures !ok ==> written == old(written) && buffer == old(buffer)
      ensures ok ==> Valid() && soFar == old(soFar)[t := lsn] && written == old(written + [NextRecord(t, kind, body)])
      ensures old(NextRecord(t, kind, body)) ==
                LogRecord(kind, lsn, t, old(LastLsn(written, |written|, t)), -1, body)
    {
      hide LogBytes, Serialize, ValidRecord, TotalLength;
      lsn := globalLsn;
      var r := NextRecord(t, kind, body);
      globalLsn := globalLsn + 1;
      ok := AddToBuffer(r);
      if ok {
        soFar := soFar[t := lsn];
        Record(r);
      }
    }

    /** `gen_log_insert_CLR` and its kin: numbered, but outside the chain. */
    method AppendClr(t: int, kind: LogType, body: Body) returns (ok: bool, lsn: int)
      requires Valid() && globalLsn < 0x8000_0000 && IsClr(kind)
      requires ValidRecord(LogRecord(kind, globalLsn, t, INVALID_LSN, INVALID_LSN, body))
      modifies this
      ensures ok <==>
                old(|buffer| + TotalLength(LogRecord(kind, globalLsn, t, INVALID_LSN, INVALID_LSN,
                  body))) <= LOG_BUFFER_SIZE
      ensures lsn == old(globalLsn) && disk == old(disk) && flushed == old(flushed) && soFar == old(soFar)
      ensures !ok ==> written == old(written) && buffer == old(buffer)
      ensures ok ==> Valid() && written == old(written) + [LogRecord(kind, lsn, t, INVALID_LSN, INVALID_LSN, body)]
    {
      hide LogBytes, Serialize, ValidRecord, TotalLength;
      lsn := globalLsn;
      var r := LogRecord(kind, lsn, t, INVALID_LSN, INVALID_LSN, body);
      globalLsn := globalLsn + 1;
      ok := AddToBuffer(r);
      if ok {
        Record(r);
      }
    }

    /** Counts a record that is in the buffer as written. */
    ghost method Record(r: LogRecord)
      requires ValidLog(written) && Chained(written, base) && ValidRecord(r) && r.lsn == base + |written|
      requires !IsClr(r.kind) ==>
                 r.prev == LastLsn(written, |written|, r.tid) && (r.kind == BEGIN <==> r.prev == INVALID_LSN)
      requires flushed <= |written| && disk == LogBytes(written[..flushed])
      requires disk + buffer == LogBytes(written) + Serialize(r)
      modifies this`written
      ensures written == old(written) + [r] && ValidLog(written) && Chained(written, base)
      ensures disk + buffer == LogBytes(written) && disk == LogBytes(written[..flushed])
      ensures forall t ::
              LastLsn(written, |written|, t) == if Own(r, t) then r.lsn else LastLsn(old(written), old(|written|), t)
    {
      hide LogBytes, Serialize, ValidRecord;
      Extended(written, r, base);
      written := written + [r];
      assert written[..flushed] == old(written)[..flushed];
    }

    method Flush()
      requires Valid()
      modifies this
      ensures Valid() && written == old(written) && flushed == |written| && buffer == []
      ensures soFar == old(soFar) && globalLsn == old(globalLsn)
    {
      hide LogBytes, Chained, ValidLog;
      disk := disk + buffer;
      buffer := [];
      flushed := |written|;
      assert written[..flushed] == written && disk + buffer == disk;
    }

    /** When `commit` returns, the COMMIT record is in the log file. */
    method Commit(t: int) returns (ok: bool, lsn: int)
      requires Valid() && globalLsn < 0x8000_0000 && t in soFar && ValidRecord(NextRecord(t, COMMIT, NoBody))
      modifies this
      ensures ok <==> old(|buffer|) + LOG_HEADER_SIZE <= LOG_BUFFER_SIZE
      ensures ok ==> Valid() && disk == LogBytes(written[..flushed]) && 0 < flushed == |written|
      ensures ok ==> old(written) < written && written[flushed - 1].kind == COMMIT && written[flushed - 1].tid == t
    {
      ok, lsn := Append(t, COMMIT, NoBody);
      if ok {
        Flush();
      }
    }
  }

  lemma Extended(rs: seq<LogRecord>, r: LogRecord, base: nat)
    requires ValidLog(rs) && Chained(rs, base) && ValidRecord(r) && r.lsn == base + |rs|
    requires !IsClr(r.kind) ==> r.prev == LastLsn(rs, |rs|, r.tid) && (r.kind == BEGIN <==> r.prev == INVALID_LSN)
    ensures ValidLog(rs + [r]) && Chained(rs + [r], base)
    ensures LogBytes(rs + [r]) == LogBytes(rs) + Serialize(r)
    ensures forall t :: LastLsn(rs + [r], |rs + [r]|, t) == if Own(r, t) then r.lsn else LastLsn(rs, |rs|, t)
  {
    hide Serialize, ValidRecord;
    var rs' := rs + [r];
    assert rs'[..|rs|] == rs;
    forall i | 0 <= i < |rs'|
      ensures ChainedAt(rs', base, i)
    {
      LastLsnPrefix(rs, rs', i, rs'[i].tid);
      assert i < |rs| ==> ChainedAt(rs, base, i);
    }
    forall t
      ensures LastLsn(rs', |rs'|, t) == if Own(r, t) then r.lsn else LastLsn(rs, |rs|, t)
    {
      LastLsnPrefix(rs, rs', |rs|, t);
    }
  }
}
