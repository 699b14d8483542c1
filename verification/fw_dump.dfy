/**
 The firmware dump: one buffer sized ahead of time, a contiguous part (memories, base queues, trace)
 and behind it a chain of optional records.  Sizes and offsets are in 32-bit words.
 */
module FwDump {
  import opened Words

  const HEADER := 18                 // words before the register area
  const MQ_WORDS := 131              // a multiqueue record: type, size, count, 4 * 32 registers
  const FCE_SIZE := 0x4000           // words of the event buffer, sixty-four times 256
  const CODE_RAM_AT := 0x20000
  const EXT_MEM_AT := 0x100000
  const CHAIN_FCE := 0x7FFFFAF0
  const CHAIN_MQ := 0x7FFFFAF1
  const CHAIN_QUEUE := 0x7FFFFAF2
  const CHAIN_LAST := 0x80000000
  const TYPE_REQUEST_QUEUE := 1
  const TYPE_RESPONSE_QUEUE := 2

  // ---------- the chain format ----------

  datatype Record = Record(code: u32, body: seq<u32>)

  // A record that fits the format: a code without the LAST bit, and a byte size that fits its word.
  predicate Proper(r: Record) { r.code < CHAIN_LAST && 4 * (2 + |r.body|) < TWO32 }

  function Encode(r: Record, last: bool): seq<u32>
    requires Proper(r)
  {
    [if last then r.code + CHAIN_LAST else r.code, 4 * (2 + |r.body|)] + r.body
  }

  predicate AllProper(rs: seq<Record>) { forall i | 0 <= i < |rs| :: Proper(rs[i]) }

  // The records one after the other; marked puts the LAST bit on the final one.
  function EncodeAll(rs: seq<Record>, marked: bool): seq<u32>
    requires AllProper(rs)
  {
    if rs == [] then [] else Encode(rs[0], marked && |rs| == 1) + EncodeAll(rs[1..], marked)
  }

  lemma {:induction false} EncodeAppend(rs: seq<Record>, r: Record, marked: bool)
    requires AllProper(rs) && Proper(r)
    ensures AllProper(rs + [r])
    ensures EncodeAll(rs + [r], marked) == EncodeAll(rs, false) + Encode(r, marked)
  {
    if rs == [] {
      assert [r][1..] == [];
    } else {
      EncodeAppend(rs[1..], r, marked);
      assert (rs + [r])[1..] == rs[1..] + [r];
    }
  }

  // A reader steps from record to record by the size field until it meets the LAST bit.
  function Walk(words: seq<u32>): Option<seq<Record>>
    decreases |words|
  {
    if |words| < 2 then None
    else
      var n := words[1] / 4;
      if n < 2 || n > |words| || words[1] % 4 != 0 then None
      else if words[0] >= CHAIN_LAST then Some([Record(words[0] - CHAIN_LAST, words[2..n])])
      else
        match Walk(words[n..])
        case None => None
        case Some(rest) => Some([Record(words[0], words[2..n])] + rest)
  }

  lemma WalkStep(r: Record, last: bool, tail: seq<u32>)
    requires Proper(r)
    ensures Walk(Encode(r, last) + tail) ==
            if last then Some([r]) else match Walk(tail) case None => None case Some(rest) => Some([r] + rest)
  {
    var words, n := Encode(r, last) + tail, 2 + |r.body|;
    assert words[1] == 4 * n && words[1] / 4 == n && words[1] % 4 == 0;
    assert words[2..n] == r.body && words[n..] == tail;
  }

  /** Main result on the format: the walk of a finished chain yields the records written, in order, and stops there. */
  lemma {:induction false} WalkReadsChain(rs: seq<Record>, trailing: seq<u32>)
    requires rs != [] && AllProper(rs)
    ensures Walk(EncodeAll(rs, true) + trailing) == Some(rs)
    decreases |rs|
  {
    var tail := EncodeAll(rs[1..], true) + trailing;
    WalkStep(rs[0], |rs| == 1, tail);
    assert EncodeAll(rs, true) + trailing == Encode(rs[0], |rs| == 1) + tail;
    assert [rs[0]] + rs[1..] == rs;
    if |rs| > 1 {
      WalkReadsChain(rs[1..], trailing);
    } else {
      assert [rs[0]] == rs;
    }
  }

  // ---------- writing into the buffer ----------

  // The chain written so far, from start to pos, and where its last record begins.
  ghost predicate Chained(b: seq<u32>, start: nat, pos: nat, last: Option<nat>, rs: seq<Record>) {
    && AllProper(rs) && start <= pos <= |b|
    && b[start..pos] == EncodeAll(rs, false)
    && (rs == [] <==> last.None?)
    && (rs != [] ==> last.value == start + |EncodeAll(rs[..|rs| - 1], false)|)
  }

  lemma AddRecord(b: seq<u32>, b': seq<u32>, start: nat, pos: nat, last: Option<nat>, rs: seq<Record>, r: Record)
    requires Chained(b, start, pos, last, rs) && Proper(r) && pos + 2 + |r.body| <= |b'|
    requires b'[start..pos] == b[start..pos] && b'[pos..pos + 2 + |r.body|] == Encode(r, false)
    ensures Chained(b', start, pos + 2 + |r.body|, Some(pos), rs + [r])
  {
    EncodeAppend(rs, r, false);
    assert b'[start..pos + 2 + |r.body|] == b'[start..pos] + b'[pos..pos + 2 + |r.body|];
    assert (rs + [r])[..|rs|] == rs;
    assert |b[start..pos]| == pos - start;
  }

  lemma MarkLast(b: seq<u32>, start: nat, pos: nat, last: Option<nat>, rs: seq<Record>)
    requires Chained(b, start, pos, last, rs) && rs != []
    ensures start <= last.value < pos && b[last.value] < CHAIN_LAST
    ensures b[last.value := b[last.value] + CHAIN_LAST][start..pos] == EncodeAll(rs, true)
  {
    var rest, r := rs[..|rs| - 1], rs[|rs| - 1];
    assert rest + [r] == rs;
    EncodeAppend(rest, r, false);
    EncodeAppend(rest, r, true);
    var k := |EncodeAll(rest, false)|;
    assert b[start..pos][k] == Encode(r, false)[0];
    assert Encode(r, true) == Encode(r, false)[0 := r.code + CHAIN_LAST];
    assert b[last.value := b[last.value] + CHAIN_LAST][start..pos] == b[start..pos][k := r.code + CHAIN_LAST];
  }

  // ---------- what is dumped ----------

  // Everything the sizing and the dump look at.  Queues are their ring words; a queue map entry may
  // be empty, and the dump stops at the first empty one.
  datatype Config = Config(
    fixedWords: nat,               // register area up to the end of code RAM
    codeWords: nat,                // code RAM, the last part of that area
    extWords: nat,                 // external memory
    req0: seq<u32>, rsp0: seq<u32>,
    eft: seq<u32>,                 // empty when there is no trace buffer
    mem: nat -> u32,               // adapter memory, as its reads return it
    mqenable: bool, is83xx: bool,
    maxReq: u8, maxRsp: u8,
    reqs: seq<Option<seq<u32>>>, rsps: seq<Option<seq<u32>>>,   // queues 1, 2, ...
    mqRegs: seq<u32>,              // four registers per queue pair
    fce: Option<seq<u32>>, fceAddr: nat, fceMb: seq<u32>)

  // The queues dumped: those before the first empty map entry.
  function Live(qs: seq<Option<seq<u32>>>): seq<seq<u32>> {
    if qs == [] || qs[0].None? then [] else [qs[0].value] + Live(qs[1..])
  }

  // ---------- the sizing ----------

  function ChainOffset(c: Config): nat {
    HEADER + c.fixedWords + c.extWords + |c.req0| + |c.rsp0| + |c.eft|
  }

  function MqWords(c: Config): nat {
    if !c.mqenable then 0
    else (if c.is83xx then 0 else MQ_WORDS) + c.maxReq * |c.req0| + c.maxRsp * |c.rsp0|
  }

  function FceWords(c: Config): nat { if c.fce.None? then 0 else 13 + FCE_SIZE }

  function DumpSize(c: Config): nat { ChainOffset(c) + MqWords(c) + FceWords(c) }

  // The conditions under which the reserved space suffices.
  predicate Fits(c: Config) {
    && c.codeWords <= c.fixedWords && |c.fceMb| == 8
    && (c.fce.Some? ==> |c.fce.value| <= FCE_SIZE)
    && (DumpsMq(c) ==> |c.mqRegs| == 4 * MqCount(c) <= 128)
    && (c.mqenable ==> KindFits(c.reqs, c.maxReq, |c.req0|) && KindFits(c.rsps, c.maxRsp, |c.rsp0|))
  }

  // Queues 1, 2, ... of one kind: none longer than queue 0, and their headers within queue 0's share.
  predicate KindFits(qs: seq<Option<seq<u32>>>, max: u8, n: nat) {
    && |qs| + 1 == max && 5 * (max - 1) <= n < 0x1000_0000
    && forall i | 0 <= i < |qs| && qs[i].Some? :: |qs[i].value| <= n
  }

  // Words of the records of a list of queues.
  function QueueWords(qs: seq<seq<u32>>): nat { if qs == [] then 0 else 5 + |qs[0]| + QueueWords(qs[1..]) }

  lemma {:induction false} LiveFits(qs: seq<Option<seq<u32>>>, n: nat)
    requires forall i | 0 <= i < |qs| && qs[i].Some? :: |qs[i].value| <= n
    ensures |Live(qs)| <= |qs| && forall i | 0 <= i < |Live(qs)| :: |Live(qs)[i]| <= n
  {
    if qs != [] && qs[0].Some? { LiveFits(qs[1..], n); }
  }

  lemma {:induction false} QueueWordsBounded(qs: seq<seq<u32>>, n: nat)
    requires forall i | 0 <= i < |qs| :: |qs[i]| <= n
    ensures QueueWords(qs) <= |qs| * (5 + n)
  {
    if qs != [] {
      QueueWordsBounded(qs[1..], n);
      assert |qs| * (5 + n) == (|qs| - 1) * (5 + n) + (5 + n);
    }
  }

  lemma ShareSuffices(k: nat, max: nat, n: nat)
    requires k < max && 5 * (max - 1) <= n
    ensures k * (5 + n) <= max * n
  {
    assert k * (5 + n) == 5 * k + k * n;
    assert (k + 1) * n == k * n + n;
    assert max * n - (k + 1) * n == (max - (k + 1)) * n;
    assert (max - (k + 1)) * n >= 0;
  }

  /** The extra queues of either kind fit the room reserved for queue 0's size times the maximum. */
  lemma QueuesFit(qs: seq<Option<seq<u32>>>, max: nat, n: nat)
    requires |qs| < max && 5 * (max - 1) <= n
    requires forall i | 0 <= i < |qs| && qs[i].Some? :: |qs[i].value| <= n
    ensures QueueWords(Live(qs)) <= max * n
  {
    LiveFits(qs, n);
    QueueWordsBounded(Live(qs), n);
    ShareSuffices(|Live(qs)|, max, n);
  }

  // ---------- the dump ----------

  // The chain records of a configuration.
  function FceRecord(c: Config): Record
    requires c.fce.Some?
  {
    Record(CHAIN_FCE, [4 * |c.fce.value| % TWO32, LSD(c.fceAddr), MSD(c.fceAddr)] + c.fceMb + c.fce.value)
  }

  function FceRecords(c: Config): seq<Record> { if c.fce.None? then [] else [FceRecord(c)] }

  // The records of the extra queues: request queues first, each kind numbered from one.
  function ExtraRecords(c: Config): seq<Record> {
    if !c.mqenable then []
    else QueueRecords(TYPE_REQUEST_QUEUE, 1, Live(c.reqs)) + QueueRecords(TYPE_RESPONSE_QUEUE, 1, Live(c.rsps))
  }

  function ExtraWords(c: Config): nat {
    if !c.mqenable then 0 else QueueWords(Live(c.reqs)) + QueueWords(Live(c.rsps))
  }

  // Sizes fit their words; the driver's ring lengths are sixteen bits wide.
  predicate QueuesProper(qs: seq<Option<seq<u32>>>) {
    forall i | 0 <= i < |qs| && qs[i].Some? :: |qs[i].value| < 0x1000_0000
  }

  function QueueRecord(kind: u32, number: nat, q: seq<u32>): Record {
    Record(CHAIN_QUEUE, [kind, number % TWO32, 4 * |q| % TWO32] + q)
  }

  function QueueRecords(kind: u32, from: nat, qs: seq<seq<u32>>): seq<Record>
    decreases |qs|
  {
    if qs == [] then [] else [QueueRecord(kind, from, qs[0])] + QueueRecords(kind, from + 1, qs[1..])
  }

  lemma {:induction false} QueueRecordsAppend(kind: u32, from: nat, qs: seq<seq<u32>>, q: seq<u32>)
    ensures QueueRecords(kind, from, qs + [q]) == QueueRecords(kind, from, qs) + [QueueRecord(kind, from + |qs|, q)]
    decreases |qs|
  {
    if qs == [] {
      assert [q][1..] == [];
    } else {
      QueueRecordsAppend(kind, from + 1, qs[1..], q);
      assert (qs + [q])[1..] == qs[1..] + [q];
    }
  }

  lemma {:induction false} QueueWordsAppend(qs: seq<seq<u32>>, q: seq<u32>)
    ensures QueueWords(qs + [q]) == QueueWords(qs) + 5 + |q|
  {
    if qs == [] {
      assert [q][1..] == [];
    } else {
      QueueWordsAppend(qs[1..], q);
      assert (qs + [q])[1..] == qs[1..] + [q];
    }
  }

  // Is r the multiqueue record of c: the count, four registers per queue pair, and whatever stood behind them?
  ghost predicate IsMqRecord(c: Config, r: Record) {
    && r.code == 0x7FFFFAF1 && |r.body| == 1 + 4 * 32 && |c.mqRegs| <= 128
    && r.body[0] == MqCount(c) && r.body[1..1 + |c.mqRegs|] == c.mqRegs
  }

  lemma MqEncodes(c: Config, b: seq<u32>, start: nat)
    requires Fits(c) && DumpsMq(c) && start + MQ_WORDS <= |b|
    requires b[start..start + 3 + |c.mqRegs|] == [CHAIN_MQ, 4 * MQ_WORDS, MqCount(c)] + c.mqRegs
    ensures var r := MqRecord(c, b[start + 3 + |c.mqRegs|..start + MQ_WORDS]);
            IsMqRecord(c, r) && Proper(r) && b[start..start + MQ_WORDS] == Encode(r, false)
  {
    var mid := start + 3 + |c.mqRegs|;
    var r := MqRecord(c, b[mid..start + MQ_WORDS]);
    assert b[start..start + MQ_WORDS] == b[start..mid] + b[mid..start + MQ_WORDS];
    assert r.body[1..1 + |c.mqRegs|] == c.mqRegs;
  }

  // Everything the chain of c can take up.
  function ChainWords(c: Config): nat { (if DumpsMq(c) then MQ_WORDS else 0) + FceWords(c) + ExtraWords(c) }

  /** Under the sizing's conditions every record of the chain stays inside the allocation. */
  lemma ChainFits(c: Config)
    requires Fits(c)
    ensures ChainOffset(c) + ChainWords(c) <= DumpSize(c)
  {
    if c.mqenable {
      QueuesFit(c.reqs, c.maxReq, |c.req0|);
      QueuesFit(c.rsps, c.maxRsp, |c.rsp0|);
    }
  }

  // A queue map with every entry filled by a queue of n words.
  ghost predicate Full(qs: seq<Option<seq<u32>>>, n: nat) {
    forall i | 0 <= i < |qs| :: qs[i].Some? && |qs[i].value| == n
  }

  lemma {:induction false} FullWords(qs: seq<Option<seq<u32>>>, max: nat, n: nat)
    requires Full(qs, n) && |qs| + 1 == max
    ensures QueueWords(Live(qs)) + n == 5 * (max - 1) + max * n
  {
    OneShareMore(max - 1, n);
    if qs == [] {
      assert max == 1;
    } else {
      FullWords(qs[1..], max - 1, n);
    }
  }

  lemma OneShareMore(k: nat, n: nat)
    ensures (k + 1) * n == k * n + n
  {
  }

  /** With every extra queue there and of queue 0's length, the room suffices exactly when the headers fit its share. */
  lemma FullQueuesFitIff(qs: seq<Option<seq<u32>>>, max: nat, n: nat)
    requires Full(qs, n) && |qs| + 1 == max
    ensures QueueWords(Live(qs)) <= max * n <==> 5 * (max - 1) <= n
  {
    FullWords(qs, max, n);
  }

  /** The same for the whole chain: both kinds share the room reserved for queues. */
  lemma FullChainFitsIff(c: Config)
    requires c.mqenable && |c.reqs| + 1 == c.maxReq && |c.rsps| + 1 == c.maxRsp
    requires Full(c.reqs, |c.req0|) && Full(c.rsps, |c.rsp0|)
    ensures ChainOffset(c) + ChainWords(c) <= DumpSize(c) <==>
            5 * (c.maxReq - 1) + 5 * (c.maxRsp - 1) <= |c.req0| + |c.rsp0|
  {
    FullWords(c.reqs, c.maxReq, |c.req0|);
    FullWords(c.rsps, c.maxRsp, |c.rsp0|);
  }

  // The records of a finished dump: multiqueue registers, event buffer, extra queues.
  ghost predicate AreRecords(c: Config, rs: seq<Record>) {
    if DumpsMq(c) then rs != [] && IsMqRecord(c, rs[0]) && rs[1..] == FceRecords(c) + ExtraRecords(c)
    else rs == FceRecords(c) + ExtraRecords(c)
  }

  lemma RecordsAdd(c: Config, mq: seq<Record>, rs: seq<Record>)
    requires if DumpsMq(c) then |mq| == 1 && IsMqRecord(c, mq[0]) else mq == []
    requires rs == mq + FceRecords(c) + ExtraRecords(c)
    ensures AreRecords(c, rs)
  {
    var more := FceRecords(c) + ExtraRecords(c);
    assert rs == mq + more;
    if !DumpsMq(c) { assert [] + more == more; }
  }

  // A copy loop over a queue map: done is dumped, rest is still to come.
  ghost predicate Progress(qs: seq<Option<seq<u32>>>, done: seq<seq<u32>>, rest: seq<seq<u32>>, que: nat) {
    && 1 <= que <= |qs| + 1 && |done| == que - 1 && rest == Live(qs[que - 1..]) && Live(qs) == done + rest
    && QueueWords(Live(qs)) == QueueWords(done) + QueueWords(rest)
  }

  lemma ProgressStep(qs: seq<Option<seq<u32>>>, done: seq<seq<u32>>, rest: seq<seq<u32>>, que: nat)
    requires Progress(qs, done, rest, que) && que <= |qs| && qs[que - 1].Some?
    ensures rest != [] && rest[0] == qs[que - 1].value
    ensures Progress(qs, done + [rest[0]], rest[1..], que + 1)
  {
    assert qs[que - 1..][1..] == qs[que..];
    assert [qs[que - 1].value] + Live(qs[que..]) == rest;
    QueueWordsAppend(done, rest[0]);
    assert done + rest == (done + [rest[0]]) + rest[1..];
  }

  // What the registers of a multiqueue record do not cover keeps the buffer's words.
  function MqRecord(c: Config, stale: seq<u32>): Record {
    Record(CHAIN_MQ, [MqCount(c)] + c.mqRegs + stale)
  }

  function MqCount(c: Config): u8 { if c.maxReq > c.maxRsp then c.maxReq else c.maxRsp }

  predicate DumpsMq(c: Config) { c.mqenable && !c.is83xx }

  /** The count of the register record is the larger of the two queue limits. */
  lemma MqCountIsMax(c: Config)
    ensures MqCount(c) >= c.maxReq && MqCount(c) >= c.maxRsp && (MqCount(c) == c.maxReq || MqCount(c) == c.maxRsp)
  {
  }

  // ---------- the records word by word ----------

  /** The size word of a record counts its bytes, type and size included; the top bit of the type marks the last. */
  lemma RecordBytes(r: Record, last: bool)
    requires Proper(r)
    ensures var words := Encode(r, last);
            words[0] == r.code + (if last then 0x8000_0000 else 0) && words[1] == 4 * |words| && words[2..] == r.body
  {
  }

  // The record of one queue: its kind, its number, its ring's size in bytes, and the ring.
  ghost predicate IsQueueRecord(r: Record, kind: nat, number: nat, q: seq<u32>) {
    && r.code == 0x7FFFFAF2 && |r.body| == 3 + |q|
    && r.body[0] == kind && r.body[1] == number && r.body[2] == 4 * |q| && r.body[3..] == q
  }

  // The event record: size in bytes and address of the buffer, eight mailbox words, and the buffer.
  ghost predicate IsFceRecord(r: Record, addr: nat, mb: seq<u32>, fce: seq<u32>) {
    && r.code == 0x7FFFFAF0 && |mb| == 8 && |r.body| == 11 + |fce|
    && r.body[0] == 4 * |fce| && r.body[1] == LSD(addr) && r.body[2] == MSD(addr)
    && r.body[3..11] == mb && r.body[11..] == fce
  }

  /** The queues dumped are those of the map up to its first empty entry. */
  lemma {:induction false} LiveIs(qs: seq<Option<seq<u32>>>)
    ensures |Live(qs)| <= |qs| && (|Live(qs)| < |qs| ==> qs[|Live(qs)|].None?)
    ensures forall k {:trigger Live(qs)[k]} {:trigger qs[k]} | 0 <= k < |Live(qs)| :: qs[k] == Some(Live(qs)[k])
  {
    if qs != [] && qs[0].Some? {
      LiveIs(qs[1..]);
      forall k | 0 <= k < |Live(qs)| ensures qs[k] == Some(Live(qs)[k]) {
        if k > 0 { assert qs[1..][k - 1] == Some(Live(qs[1..])[k - 1]); }
      }
    }
  }

  lemma {:induction false} QueueRecordsAre(kind: u32, from: nat, qs: seq<seq<u32>>, k: nat)
    requires k < |qs| && from + k < TWO32 && 4 * |qs[k]| < TWO32
    ensures |QueueRecords(kind, from, qs)| == |qs|
    ensures IsQueueRecord(QueueRecords(kind, from, qs)[k], kind, from + k, qs[k])
    decreases |qs|
  {
    QueueRecordsLength(kind, from, qs);
    if k > 0 { QueueRecordsAre(kind, from + 1, qs[1..], k - 1); }
  }

  lemma {:induction false} QueueRecordsLength(kind: u32, from: nat, qs: seq<seq<u32>>)
    ensures |QueueRecords(kind, from, qs)| == |qs|
    decreases |qs|
  {
    if qs != [] { QueueRecordsLength(kind, from + 1, qs[1..]); }
  }

  // rs are one record for each queue dumped from the map, numbered from one.
  ghost predicate AreQueueRecords(rs: seq<Record>, kind: nat, qs: seq<Option<seq<u32>>>) {
    && |rs| == |Live(qs)|
    && forall k | 0 <= k < |rs| :: IsQueueRecord(rs[k], kind, k + 1, Live(qs)[k])
  }

  lemma KindRecords(kind: u32, qs: seq<Option<seq<u32>>>, max: u8, n: nat)
    requires KindFits(qs, max, n)
    ensures AreQueueRecords(QueueRecords(kind, 1, Live(qs)), kind, qs)
  {
    LiveFits(qs, n);
    QueueRecordsLength(kind, 1, Live(qs));
    forall k | 0 <= k < |Live(qs)| ensures IsQueueRecord(QueueRecords(kind, 1, Live(qs))[k], kind, k + 1, Live(qs)[k]) {
      QueueRecordsAre(kind, 1, Live(qs), k);
    }
  }

  lemma FceRecordIs(c: Config)
    requires Fits(c) && c.fce.Some?
    ensures IsFceRecord(FceRecord(c), c.fceAddr, c.fceMb, c.fce.value)
  {
    var r := FceRecord(c);
    assert r.body[3..11] == c.fceMb && r.body[11..] == c.fce.value;
  }

  // Registers, events, request queues and response queues, each part as c has it.
  ghost predicate Parts(c: Config, mq: seq<Record>, fce: seq<Record>, reqs: seq<Record>, rsps: seq<Record>) {
    && (if c.mqenable && !c.is83xx then |mq| == 1 && IsMqRecord(c, mq[0]) else mq == [])
    && (if c.fce.Some? then |fce| == 1 && IsFceRecord(fce[0], c.fceAddr, c.fceMb, c.fce.value) else fce == [])
    && (if c.mqenable then AreQueueRecords(reqs, 1, c.reqs) && AreQueueRecords(rsps, 2, c.rsps)
        else reqs == [] && rsps == [])
  }

  // What a reader of the chain finds, in this order.
  ghost predicate ReadAs(c: Config, rs: seq<Record>) {
    exists mq, fce, reqs, rsps :: rs == mq + fce + reqs + rsps && Parts(c, mq, fce, reqs, rsps)
  }

  /** The records of a finished dump, word by word. */
  lemma DumpedRecords(c: Config, rs: seq<Record>)
    requires Fits(c) && AreRecords(c, rs)
    ensures ReadAs(c, rs)
  {
    var mq, fce := if DumpsMq(c) then [rs[0]] else [], FceRecords(c);
    var reqs, rsps := ExtraParts(c);
    if c.fce.Some? { FceRecordIs(c); }
    assert Parts(c, mq, fce, reqs, rsps);
    Joined(rs, mq, fce, reqs, rsps);
  }

  lemma Joined(rs: seq<Record>, mq: seq<Record>, fce: seq<Record>, reqs: seq<Record>, rsps: seq<Record>)
    requires if mq == [] then rs == fce + (reqs + rsps) else rs != [] && mq == [rs[0]] && rs[1..] == fce + (reqs + rsps)
    ensures rs == mq + fce + reqs + rsps
  {
    assert mq != [] ==> rs == [rs[0]] + rs[1..];
    assert rs == mq + (fce + (reqs + rsps));
  }

  lemma ExtraParts(c: Config) returns (reqs: seq<Record>, rsps: seq<Record>)
    requires Fits(c)
    ensures ExtraRecords(c) == reqs + rsps
    ensures if c.mqenable then AreQueueRecords(reqs, 1, c.reqs) && AreQueueRecords(rsps, 2, c.rsps)
            else reqs == [] && rsps == []
  {
    reqs, rsps := [], [];
    if c.mqenable {
      KindRecords(TYPE_REQUEST_QUEUE, c.reqs, c.maxReq, |c.req0|);
      KindRecords(TYPE_RESPONSE_QUEUE, c.rsps, c.maxRsp, |c.rsp0|);
      reqs := QueueRecords(TYPE_REQUEST_QUEUE, 1, Live(c.reqs));
      rsps := QueueRecords(TYPE_RESPONSE_QUEUE, 1, Live(c.rsps));
    }
  }

  // ---------- the sizing, exactly ----------

  function RecordWords(rs: seq<Record>): nat { if rs == [] then 0 else 2 + |rs[0].body| + RecordWords(rs[1..]) }

  lemma {:induction false} EncodedLength(rs: seq<Record>, marked: bool)
    requires AllProper(rs)
    ensures |EncodeAll(rs, marked)| == RecordWords(rs)
  {
    if rs != [] { EncodedLength(rs[1..], marked); }
  }

  lemma {:induction false} RecordWordsAdd(a: seq<Record>, b: seq<Record>)
    ensures RecordWords(a + b) == RecordWords(a) + RecordWords(b)
  {
    if a == [] {
      assert a + b == b;
    } else {
      assert (a + b)[1..] == a[1..] + b;
      RecordWordsAdd(a[1..], b);
    }
  }

  lemma {:induction false} QueueRecordWords(kind: u32, from: nat, qs: seq<seq<u32>>)
    ensures RecordWords(QueueRecords(kind, from, qs)) == QueueWords(qs)
    decreases |qs|
  {
    if qs != [] {
      QueueRecordWords(kind, from + 1, qs[1..]);
      assert QueueRecords(kind, from, qs)[1..] == QueueRecords(kind, from + 1, qs[1..]);
    }
  }

  lemma ExtraRecordWords(c: Config)
    ensures RecordWords(ExtraRecords(c)) == ExtraWords(c)
  {
    if c.mqenable {
      var reqs := QueueRecords(TYPE_REQUEST_QUEUE, 1, Live(c.reqs));
      var rsps := QueueRecords(TYPE_RESPONSE_QUEUE, 1, Live(c.rsps));
      RecordWordsAdd(reqs, rsps);
      QueueRecordWords(TYPE_REQUEST_QUEUE, 1, Live(c.reqs));
      QueueRecordWords(TYPE_RESPONSE_QUEUE, 1, Live(c.rsps));
    }
  }

  lemma FceRecordWords(c: Config)
    requires Fits(c) && (c.fce.Some? ==> |c.fce.value| == 0x4000)
    ensures RecordWords(FceRecords(c)) == FceWords(c)
  {
    if c.fce.Some? { assert FceRecords(c)[1..] == []; }
  }

  /** With an event buffer of the full size, the chain takes exactly the words counted for it. */
  lemma ChainTakes(c: Config, rs: seq<Record>)
    requires Fits(c) && AreRecords(c, rs) && AllProper(rs) && (c.fce.Some? ==> |c.fce.value| == 0x4000)
    ensures |EncodeAll(rs, true)| == ChainWords(c)
  {
    EncodedLength(rs, true);
    ExtraRecordWords(c);
    FceRecordWords(c);
    RecordWordsAdd(FceRecords(c), ExtraRecords(c));
  }

  /** What the size leaves free with full queue maps: the base queues' share less five words for each extra queue. */
  lemma SizeLeaves(c: Config)
    requires c.mqenable ==> |c.reqs| + 1 == c.maxReq && |c.rsps| + 1 == c.maxRsp
    requires c.mqenable ==> Full(c.reqs, |c.req0|) && Full(c.rsps, |c.rsp0|)
    ensures DumpSize(c) - (ChainOffset(c) + ChainWords(c)) ==
            if c.mqenable then |c.req0| + |c.rsp0| - 5 * (c.maxReq - 1) - 5 * (c.maxRsp - 1) else 0
  {
    if c.mqenable {
      FullWords(c.reqs, c.maxReq, |c.req0|);
      FullWords(c.rsps, c.maxRsp, |c.rsp0|);
    }
  }

  // Where code RAM begins, and where external memory ends.
  function CodeAt(c: Config): int { HEADER + c.fixedWords - c.codeWords }

  function MemoryEnd(c: Config): nat { HEADER + c.fixedWords + c.extWords }

  // One poll of the mailbox: no interrupt in time, or a mailbox interrupt with its status word.
  datatype Reply = Timeout | Status(mb0: u16)

  predicate Completed(r: Reply) { r.Status? && r.mb0 % 0x4000 == 0 }

  /** A read has completed when the low fourteen bits of its status are zero. */
  lemma CompletedIs(r: Reply)
    ensures Completed(r) <==> r.Status? && (r.mb0 == 0 || r.mb0 == 0x4000 || r.mb0 == 0x8000 || r.mb0 == 0xC000)
  {
  }

  // The reads made so far: all but the latest completed, and so did the latest if the dump is still going.
  ghost predicate Polled(reply: nat -> Reply, polls: nat, ok: bool) {
    && (forall k | 0 <= k < polls - 1 :: Completed(reply(k)))
    && (ok <==> polls == 0 || Completed(reply(polls - 1)))
  }

  // No memory read fails.
  ghost predicate AllComplete(reply: nat -> Reply) { forall k: nat :: Completed(reply(k)) }

  lemma PolledMore(reply: nat -> Reply, polls: nat)
    requires Polled(reply, polls, true)
    ensures Polled(reply, polls + 1, Completed(reply(polls)))
  {
  }

  function OrTop(w: u32): u32 { if w >= CHAIN_LAST then w else w + CHAIN_LAST }

  lemma ProgressDone(qs: seq<Option<seq<u32>>>, done: seq<seq<u32>>, rest: seq<seq<u32>>, que: nat)
    requires Progress(qs, done, rest, que) && (que > |qs| || qs[que - 1].None?)
    ensures done == Live(qs)
  {
    assert rest == [];
    assert done + [] == done;
  }

  class Dumper {
    const buf: array<u32>
    const gidList: array<u32>          // staging area of memory reads
    var last: Option<nat>              // where the last chain record begins
    ghost var rs: seq<Record>          // the records written so far

    constructor (size: nat, staging: nat)
      ensures buf.Length == size && gidList.Length == staging && fresh(buf) && fresh(gidList) && buf != gidList
      ensures last == None && rs == []
    {
      buf := new u32[size](_ => 0);
      gidList := new u32[staging](_ => 0);
      last, rs := None, [];
    }

    ghost predicate Chain(start: nat, pos: nat)
      reads this, buf
    {
      Chained(buf[..], start, pos, last, rs)
    }

    twostate predicate Keeps(lo: nat, hi: nat)
      reads buf
    {
      forall i | 0 <= i < buf.Length && !(lo <= i < hi) :: buf[i] == old(buf[i])
    }

    /** memcpy into the buffer. */
    method Copy(at: nat, src: seq<u32>) returns (next: nat)
      requires at + |src| <= buf.Length
      modifies buf
      ensures next == at + |src| && buf[at..next] == src && Keeps(at, next)
    {
      forall i | 0 <= i < |src| {
        buf[at + i] := src[i];
      }
      next := at + |src|;
      assert forall i | 0 <= i < |src| :: buf[at..next][i] == buf[at + i];
    }

    // ---------- memories, base queues, trace ----------

    // Places at .. at+n of the buffer hold the adapter's words from place base on, base standing for addr.
    ghost predicate Holds(at: nat, n: nat, mem: nat -> u32, addr: nat, base: nat)
      requires base <= at && at + n <= buf.Length
      reads buf
    {
      forall i | at <= i < at + n :: buf[i] == Swab(mem(addr + (i - base)))
    }

    /** One memory read: the adapter fills the staging area, and the words go out with their bytes reversed. */
    method DumpChunk(mem: nat -> u32, addr: nat, ram: nat, cnt: nat, dwords: nat)
      requires ram + cnt + dwords <= buf.Length && dwords <= gidList.Length && buf != gidList
      modifies buf, gidList
      ensures Holds(ram + cnt, dwords, mem, addr, ram) && Keeps(ram + cnt, ram + cnt + dwords)
    {
      forall i | 0 <= i < dwords {
        gidList[i] := mem(addr + cnt + i);
      }
      for idx := 0 to dwords
        invariant forall i | 0 <= i < dwords :: gidList[i] == mem(addr + cnt + i)
        invariant Holds(ram + cnt, idx, mem, addr, ram) && Keeps(ram + cnt, ram + cnt + dwords)
      {
        buf[ram + cnt + idx] := Swab(gidList[idx]);
      }
    }

    /** One round of the dump: ask for a chunk, poll, and take it even when its status says failure. */
    method DumpRound(mem: nat -> u32, addr: nat, ram: nat, cnt: nat, dwords: nat, r: Reply) returns (ok: bool)
      requires ram + cnt + dwords <= buf.Length && dwords <= gidList.Length && buf != gidList
      modifies buf, gidList
      ensures ok <==> Completed(r)
      ensures ok ==> Holds(ram + cnt, dwords, mem, addr, ram)
      ensures Keeps(ram + cnt, ram + cnt + dwords)
    {
      if r.Status? {
        DumpChunk(mem, addr, ram, cnt, dwords);
        ok := r.mb0 % 0x4000 == 0;
      } else {
        ok := false;
      }
    }

    /**
     Memory in chunks of the staging area.  Success means that every read completed and the whole range
     is in the buffer, however it was cut up; the first read that does not complete ends the dump.
     */
    method DumpRam(mem: nat -> u32, addr: nat, ram: nat, ramDwords: nat, reply: nat -> Reply)
      returns (ok: bool, next: nat, polls: nat)
      requires ram + ramDwords <= buf.Length && 0 < gidList.Length && buf != gidList
      modifies buf, gidList
      ensures Polled(reply, polls, ok)
      ensures ok ==> next == ram + ramDwords && Holds(ram, ramDwords, mem, addr, ram)
      ensures Keeps(ram, ram + ramDwords)
    {
      var cnt, dwords := 0, gidList.Length;
      ok, polls := true, 0;
      while cnt < ramDwords && ok
        invariant cnt <= ramDwords && 0 < dwords <= gidList.Length
        invariant Polled(reply, polls, ok)
        invariant ok ==> Holds(ram, cnt, mem, addr, ram)
        invariant Keeps(ram, ram + ramDwords)
      {
        if cnt + dwords > ramDwords {
          dwords := ramDwords - cnt;
        }
        ok := DumpRound(mem, addr, ram, cnt, dwords, reply(polls));
        PolledMore(reply, polls);
        polls := polls + 1;
        cnt := cnt + dwords;
      }
      next := ram + cnt;
    }

    /** Code RAM and, straight behind it, external memory. */
    method DumpMemory(c: Config, codeReply: nat -> Reply, extReply: nat -> Reply) returns (ok: bool, next: nat)
      requires Fits(c) && MemoryEnd(c) <= buf.Length && 0 < gidList.Length && buf != gidList
      modifies buf, gidList
      ensures Keeps(CodeAt(c), MemoryEnd(c))
      ensures ok ==> next == MemoryEnd(c)
      ensures ok ==> Holds(CodeAt(c), c.codeWords, c.mem, 0x20000, CodeAt(c))
      ensures ok ==> Holds(CodeAt(c) + c.codeWords, c.extWords, c.mem, 0x100000, CodeAt(c) + c.codeWords)
      ensures AllComplete(codeReply) && AllComplete(extReply) ==> ok
    {
      var polls;
      ok, next, polls := DumpRam(c.mem, CODE_RAM_AT, CodeAt(c), c.codeWords, codeReply);
      if ok {
        ok, next, polls := DumpRam(c.mem, EXT_MEM_AT, next, c.extWords, extReply);
      }
    }

    method CopyQueues(c: Config, at: nat) returns (next: nat)
      requires at + |c.req0| + |c.rsp0| <= buf.Length
      modifies buf
      ensures next == at + |c.req0| + |c.rsp0| && Keeps(at, next)
      ensures buf[at..next] == c.req0 + c.rsp0
    {
      next := Copy(at, c.req0);
      label Half:
      next := Copy(next, c.rsp0);
      assert buf[at..at + |c.req0|] == old@Half(buf[at..at + |c.req0|]);
      assert buf[at..next] == buf[at..at + |c.req0|] + buf[at + |c.req0|..next];
    }

    method CopyEft(c: Config, at: nat) returns (next: nat)
      requires at + |c.eft| <= buf.Length
      modifies buf
      ensures next == at + |c.eft| && Keeps(at, next) && buf[at..next] == c.eft
    {
      next := at;
      if c.eft != [] {
        next := Copy(at, c.eft);
      }
    }

    // ---------- the chain ----------

    /** A record: type, size, and the rest in pieces as the driver writes it. */
    method Append(ghost start: nat, pos: nat, r: Record) returns (next: nat)
      requires Chain(start, pos) && Proper(r) && pos + 2 + |r.body| <= buf.Length
      modifies this, buf
      ensures Chain(start, next) && next == pos + 2 + |r.body| && rs == old(rs) + [r]
      ensures Keeps(pos, next)
    {
      next := Copy(pos, Encode(r, false));
      assert buf[start..pos] == old(buf[start..pos]);
      AddRecord(old(buf[..]), buf[..], start, pos, last, rs, r);
      last := Some(pos);
      rs := rs + [r];
    }

    /** The multiqueue registers open the chain; the record has a fixed size, whatever the queue count. */
    method CopyMq(c: Config, start: nat) returns (next: nat)
      requires Chain(start, start) && rs == [] && Fits(c)
      requires start + (if DumpsMq(c) then MQ_WORDS else 0) <= buf.Length
      modifies this, buf
      ensures Chain(start, next) && Keeps(start, next)
      ensures next == start + if DumpsMq(c) then MQ_WORDS else 0
      ensures if DumpsMq(c) then |rs| == 1 && IsMqRecord(c, rs[0]) else rs == []
    {
      next := start;
      if DumpsMq(c) {
        next := Copy(start, [CHAIN_MQ, 4 * MQ_WORDS, MqCount(c)] + c.mqRegs);
        MqEncodes(c, buf[..], start);
        ghost var r := MqRecord(c, buf[next..start + MQ_WORDS]);
        AddRecord(old(buf[..]), buf[..], start, start, last, rs, r);
        last := Some(start);
        rs := rs + [r];
        next := start + MQ_WORDS;
      }
    }

    method CopyFce(c: Config, ghost start: nat, pos: nat) returns (next: nat)
      requires Chain(start, pos) && Fits(c) && pos + FceWords(c) <= buf.Length
      modifies this, buf
      ensures Chain(start, next) && Keeps(pos, next) && pos <= next <= pos + FceWords(c)
      ensures rs == old(rs) + FceRecords(c)
    {
      next := pos;
      if c.fce.Some? {
        next := Append(start, pos, FceRecord(c));
      }
    }

    /** Records for the queues 1, 2, ... up to the first empty map entry. */
    method CopyKind(kind: u32, qs: seq<Option<seq<u32>>>, ghost start: nat, pos: nat) returns (next: nat)
      requires Chain(start, pos) && QueuesProper(qs) && pos + QueueWords(Live(qs)) <= buf.Length
      modifies this, buf
      ensures Chain(start, next) && Keeps(pos, next) && next == pos + QueueWords(Live(qs))
      ensures rs == old(rs) + QueueRecords(kind, 1, Live(qs))
    {
      next := pos;
      var que := 1;
      ghost var done, rest := [], Live(qs);
      while que <= |qs| && qs[que - 1].Some?
        invariant Progress(qs, done, rest, que)
        invariant next == pos + QueueWords(done)
        invariant Chain(start, next) && Keeps(pos, next) && rs == old(rs) + QueueRecords(kind, 1, done)
        decreases |qs| - que
      {
        ProgressStep(qs, done, rest, que);
        QueueWordsAppend(done, rest[0]);
        QueueRecordsAppend(kind, 1, done, rest[0]);
        next := Append(start, next, QueueRecord(kind, que, qs[que - 1].value));
        done, rest := done + [rest[0]], rest[1..];
        que := que + 1;
      }
      ProgressDone(qs, done, rest, que);
    }

    method CopyMqueues(c: Config, ghost start: nat, pos: nat) returns (next: nat)
      requires Chain(start, pos) && Fits(c) && pos + ExtraWords(c) <= buf.Length
      modifies this, buf
      ensures Chain(start, next) && Keeps(pos, next) && next == pos + ExtraWords(c)
      ensures rs == old(rs) + ExtraRecords(c)
    {
      next := pos;
      if c.mqenable {
        next := CopyBoth(c.reqs, c.rsps, start, pos);
      }
    }

    // Request queues, then response queues.
    method CopyBoth(reqs: seq<Option<seq<u32>>>, rsps: seq<Option<seq<u32>>>, ghost start: nat, pos: nat)
      returns (next: nat)
      requires Chain(start, pos) && QueuesProper(reqs) && QueuesProper(rsps)
      requires pos + QueueWords(Live(reqs)) + QueueWords(Live(rsps)) <= buf.Length
      modifies this, buf
      ensures Chain(start, next) && Keeps(pos, next)
      ensures next == pos + QueueWords(Live(reqs)) + QueueWords(Live(rsps))
      ensures rs == old(rs) + (QueueRecords(TYPE_REQUEST_QUEUE, 1, Live(reqs)) +
                               QueueRecords(TYPE_RESPONSE_QUEUE, 1, Live(rsps)))
    {
      next := CopyKind(TYPE_REQUEST_QUEUE, reqs, start, pos);
      next := CopyKind(TYPE_RESPONSE_QUEUE, rsps, start, next);
    }

    /** The last record, if there is one, and the version word are marked. */
    method Finish(start: nat, pos: nat)
      requires Chain(start, pos) && 1 < start
      modifies buf
      ensures rs != [] ==> buf[start..pos] == EncodeAll(rs, true) && buf[1] == OrTop(old(buf[1]))
      ensures rs == [] ==> buf[..] == old(buf[..])
      ensures forall i | 0 <= i < buf.Length && i != 1 && !(start <= i < pos) :: buf[i] == old(buf[i])
    {
      if last.Some? {
        MarkLast(buf[..], start, pos, last, rs);
        buf[1] := OrTop(buf[1]);
        buf[last.value] := OrTop(buf[last.value]);
        assert buf[start..pos] == old(buf[..])[last.value := old(buf[..])[last.value] + CHAIN_LAST][start..pos];
      }
    }

    // ---------- the whole dump ----------

    // The contiguous part: memories, base queues and trace, ending where the chain begins.
    ghost predicate Base(c: Config)
      requires Fits(c) && ChainOffset(c) <= buf.Length
      reads buf
    {
      && Holds(CodeAt(c), c.codeWords, c.mem, 0x20000, CodeAt(c))
      && Holds(CodeAt(c) + c.codeWords, c.extWords, c.mem, 0x100000, CodeAt(c) + c.codeWords)
      && buf[MemoryEnd(c)..ChainOffset(c)] == c.req0 + c.rsp0 + c.eft
    }

    method CopyBase(c: Config, at: nat) returns (next: nat)
      requires at + |c.req0| + |c.rsp0| + |c.eft| <= buf.Length
      modifies buf
      ensures next == at + |c.req0| + |c.rsp0| + |c.eft| && Keeps(at, next)
      ensures buf[at..next] == c.req0 + c.rsp0 + c.eft
    {
      var mid := CopyQueues(c, at);
      label Queues:
      next := CopyEft(c, mid);
      assert buf[at..mid] == old@Queues(buf[at..mid]);
      assert buf[at..next] == buf[at..mid] + buf[mid..next];
    }

    twostate lemma BaseStays(c: Config)
      requires Fits(c) && ChainOffset(c) <= buf.Length && old(Base(c))
      requires forall i | CodeAt(c) <= i < ChainOffset(c) :: buf[i] == old(buf[i])
      ensures Base(c)
    {
      assert buf[MemoryEnd(c)..ChainOffset(c)] == old(buf[MemoryEnd(c)..ChainOffset(c)]);
    }

    method DumpBase(c: Config, ghost pos: nat, codeReply: nat -> Reply, extReply: nat -> Reply)
      returns (ok: bool, next: nat)
      requires Fits(c) && ChainOffset(c) <= buf.Length && 0 < gidList.Length && buf != gidList
      requires Chain(ChainOffset(c), pos)
      modifies buf, gidList
      ensures Keeps(CodeAt(c), ChainOffset(c))
      ensures Chain(ChainOffset(c), pos)
      ensures ok ==> Base(c) && next == ChainOffset(c)
      ensures AllComplete(codeReply) && AllComplete(extReply) ==> ok
    {
      ok, next := DumpMemory(c, codeReply, extReply);
      if ok {
        next := CopyBase(c, next);
      }
      assert buf[ChainOffset(c)..pos] == old(buf[ChainOffset(c)..pos]);
    }

    method CopyRecords(c: Config, ghost start: nat, pos: nat) returns (next: nat)
      requires Chain(start, pos) && Fits(c) && pos + FceWords(c) + ExtraWords(c) <= buf.Length
      modifies this, buf
      ensures Chain(start, next) && Keeps(pos, next) && next <= buf.Length
      ensures rs == old(rs) + FceRecords(c) + ExtraRecords(c)
    {
      next := CopyFce(c, start, pos);
      next := CopyMqueues(c, start, next);
    }

    method DumpChain(c: Config, pos: nat) returns (next: nat)
      requires Fits(c) && buf.Length == DumpSize(c) && Chain(ChainOffset(c), pos) && buf[1] == 2
      requires pos + FceWords(c) + ExtraWords(c) <= buf.Length && Base(c)
      modifies this, buf
      ensures rs == old(rs) + FceRecords(c) + ExtraRecords(c)
      ensures AllProper(rs) && ChainOffset(c) <= next <= buf.Length
      ensures buf[1] == if rs == [] then 2 else 2 + CHAIN_LAST
      ensures buf[ChainOffset(c)..next] == EncodeAll(rs, true)
      ensures Base(c)
    {
      next := CopyRecords(c, ChainOffset(c), pos);
      Finish(ChainOffset(c), next);
      BaseStays(c);
    }

    // From a started chain to the end of the dump.
    method DumpRest(c: Config, pos: nat, codeReply: nat -> Reply, extReply: nat -> Reply) returns (ok: bool, len: nat)
      requires Fits(c) && buf.Length == DumpSize(c) && 0 < gidList.Length && buf != gidList
      requires Chain(ChainOffset(c), pos) && buf[1] == 2 && pos + FceWords(c) + ExtraWords(c) <= buf.Length
      modifies this, buf, gidList
      ensures ok ==> rs == old(rs) + FceRecords(c) + ExtraRecords(c) && AllProper(rs) && Base(c)
      ensures ok ==> ChainOffset(c) <= len <= buf.Length && buf[ChainOffset(c)..len] == EncodeAll(rs, true)
      ensures ok ==> buf[1] == if rs == [] then 2 else 2 + CHAIN_LAST
      ensures AllComplete(codeReply) && AllComplete(extReply) ==> ok
    {
      ok, len := DumpBase(c, pos, codeReply, extReply);
      if ok {
        len := DumpChain(c, pos);
      }
    }

    lemma FinishedWalks(start: nat, len: nat)
      requires start <= len <= buf.Length && AllProper(rs) && buf[start..len] == EncodeAll(rs, true)
      ensures if rs == [] then len == start else Walk(buf[start..len]) == Some(rs)
    {
      if rs != [] {
        WalkReadsChain(rs, []);
        assert EncodeAll(rs, true) + [] == EncodeAll(rs, true);
      }
    }

    /**
     The dump of a 25xx, 81xx or 83xx adapter, into a buffer of the reserved size: the contiguous part ends
     exactly where the chain begins, the chain stays inside the buffer, and walking it gives the optional
     multiqueue and event records and then one record per extra queue, in order and no others.
     */
    method Dump(c: Config, resetOk: bool, codeReply: nat -> Reply, extReply: nat -> Reply) returns (ok: bool, len: nat)
      requires Fits(c) && buf.Length == DumpSize(c) && 0 < gidList.Length && buf != gidList
      modifies this, buf, gidList
      ensures ok ==> resetOk && Base(c) && ChainOffset(c) <= len <= buf.Length && AreRecords(c, rs) && ReadAs(c, rs)
      ensures ok && rs != [] ==> Walk(buf[ChainOffset(c)..len]) == Some(rs) && buf[1] == 2 + CHAIN_LAST
      ensures ok && rs == [] ==> len == ChainOffset(c) && buf[1] == 2
      ensures resetOk && AllComplete(codeReply) && AllComplete(extReply) ==> ok
    {
      ChainFits(c);
      last, rs := None, [];
      buf[1] := 2;
      len := CopyMq(c, ChainOffset(c));
      ok := resetOk;
      if ok {
        ghost var mq := rs;
        ok, len := DumpRest(c, len, codeReply, extReply);
        if ok {
          RecordsAdd(c, mq, rs);
          DumpedRecords(c, rs);
          FinishedWalks(ChainOffset(c), len);
        }
      }
    }
  }
}
