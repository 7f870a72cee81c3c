/**
 The tamper-evident chain of audit blocks.

 The hash function is a parameter, and so is the encoding of events until `EventsEncodeSafely` shows that
 their JSON text has what the chain needs. Instants are compared as the UTC text of the block is, to the
 nanosecond.
 */
module AuditChain {
  import EventJson
  import opened Text
  import opened Timestamps
  import opened Wrappers

  datatype Block<E> = Block(index: nat, timestamp: Timestamp, event: E, previousHash: string, hash: string)

  datatype ChainError = BrokenLink | PayloadTampered

  const GENESIS_PREVIOUS := "0000000000000000000000000000000000000000000000000000000000000000"

  /** The range of `uint64`. */
  const INDEX_RANGE: nat := 0x1_0000_0000_0000_0000

  /** The text that is hashed. */
  function Record<E>(b: Block<E>, encode: E -> string): string {
    Digits(b.index) + ":" + PrintTimestamp(b.timestamp) + ":" + b.previousHash + ":" + encode(b.event)
  }

  function CalculateHash<E>(b: Block<E>, encode: E -> string, hash: string -> string): string {
    hash(Record(b, encode))
  }

  /** The text that is hashed, for a block of the year 2026. */
  lemma RecordExample<E>(event: E, encode: E -> string)
    requires encode(event) == "{}"
    ensures Record(Block(17, Timestamp(2026, 1, 2, 13, 4, 5, 60_000_000), event, "ab", "cd"), encode)
         == "17:2026-01-02T13:04:05.06Z:ab:{}"
  {
    TimestampExamples();
    DigitsOf17();
    hide Digits, PrintTimestamp;
  }

  lemma DigitsOf17()
    ensures Digits(17) == "17"
  {
    assert DigitChar(1) == '1' && DigitChar(7) == '7';
    assert Digits(17) == Digits(1) + "7";
  }

  // ---------------------------------------------------------- what is accepted

  /** Block `i` is linked to its predecessor and carries the hash of its own record. */
  predicate Linked<E>(blocks: seq<Block<E>>, i: nat, encode: E -> string, hash: string -> string)
    requires 0 < i < |blocks|
  {
    blocks[i].previousHash == blocks[i - 1].hash && CalculateHash(blocks[i], encode, hash) == blocks[i].hash
  }

  predicate Accepted<E>(blocks: seq<Block<E>>, encode: E -> string, hash: string -> string) {
    forall i :: 0 < i < |blocks| ==> Linked(blocks, i, encode, hash)
  }

  predicate FirstFault<E>(blocks: seq<Block<E>>, i: nat, encode: E -> string, hash: string -> string) {
    && 0 < i < |blocks|
    && !Linked(blocks, i, encode, hash)
    && forall k :: 0 < k < i ==> Linked(blocks, k, encode, hash)
  }

  class ChainManager<E> {
    const encode: E -> string
    const hash: string -> string
    var blocks: seq<Block<E>>

    /** Every chain built by `Append` is accepted. */
    ghost predicate Valid()
      reads this
    {
      && blocks != [] && Accepted(blocks, encode, hash)
      && forall i :: 0 <= i < |blocks| ==> blocks[i].index == i % INDEX_RANGE
    }

    constructor (encode: E -> string, hash: string -> string, systemInit: E, now: Timestamp)
      ensures Valid() && this.encode == encode && this.hash == hash && |blocks| == 1
      ensures blocks[0].index == 0 && blocks[0].event == systemInit && blocks[0].timestamp == now
      ensures blocks[0].previousHash == "0000000000000000000000000000000000000000000000000000000000000000"
      ensures blocks[0].hash == CalculateHash(blocks[0], encode, hash)
    {
      this.encode, this.hash := encode, hash;
      var genesis := Block(0, now, systemInit, GENESIS_PREVIOUS, "");
      genesis := genesis.(hash := CalculateHash(genesis, encode, hash));
      blocks := [genesis];
    }

    /** Links one event to the end; the chain so far is untouched and the whole stays accepted. */
    method Append(event: E, now: Timestamp) returns (newBlock: Block<E>)
      requires Valid()
      modifies this`blocks
      ensures Valid() && blocks == old(blocks) + [newBlock]
      ensures newBlock.event == event && newBlock.timestamp == now
      ensures newBlock.previousHash == old(blocks)[|old(blocks)| - 1].hash
      ensures newBlock.hash == CalculateHash(newBlock, encode, hash)
      ensures newBlock.index == (old(blocks)[|old(blocks)| - 1].index + 1) % INDEX_RANGE
    {
      hide Record;
      var prevBlock := blocks[|blocks| - 1];
      newBlock := Block((prevBlock.index + 1) % INDEX_RANGE, now, event, prevBlock.hash, "");
      newBlock := newBlock.(hash := CalculateHash(newBlock, encode, hash));
      HashIgnoresHash(newBlock, encode, "");
      AcceptedAppend(blocks, newBlock, encode, hash);
      blocks := blocks + [newBlock];
    }

    /** The full sweep: it accepts exactly the linked chains and names the first fault of the others. */
    method VerifyChain() returns (ok: bool, err: Option<ChainError>)
      ensures ok <==> Accepted(blocks, encode, hash)
      ensures ok <==> err == None
      ensures !ok ==> exists i: nat ::
                (&& FirstFault(blocks, i, encode, hash)
                 && err == Some(if blocks[i].previousHash != blocks[i - 1].hash then BrokenLink else PayloadTampered))
    {
      hide CalculateHash;
      var i := 1;
      while i < |blocks|
        invariant i >= 1
        invariant forall k :: 0 < k < i && k < |blocks| ==> Linked(blocks, k, encode, hash)
      {
        var prev, curr := blocks[i - 1], blocks[i];
        if curr.previousHash != prev.hash {
          assert FirstFault(blocks, i, encode, hash);
          return false, Some(BrokenLink);
        }
        if CalculateHash(curr, encode, hash) != curr.hash {
          assert FirstFault(blocks, i, encode, hash);
          return false, Some(PayloadTampered);
        }
        i := i + 1;
      }
      return true, None;
    }
  }

  lemma HashIgnoresHash<E>(b: Block<E>, encode: E -> string, h: string)
    ensures Record(b.(hash := h), encode) == Record(b, encode)
  {
  }

  lemma AcceptedAppend<E>(blocks: seq<Block<E>>, b: Block<E>, encode: E -> string, hash: string -> string)
    requires blocks != [] && Accepted(blocks, encode, hash)
    requires b.previousHash == blocks[|blocks| - 1].hash && CalculateHash(b, encode, hash) == b.hash
    ensures Accepted(blocks + [b], encode, hash)
  {
    hide CalculateHash;
    forall i | 0 < i < |blocks| + 1
      ensures Linked(blocks + [b], i, encode, hash)
    {
      if i < |blocks| { assert Linked(blocks, i, encode, hash); }
    }
  }

  // ------------------------------------------------------- tampering is evident

  ghost predicate Injective<E(!new)>(encode: E -> string) {
    forall e: E, f: E :: encode(e) == encode(f) ==> e == f
  }

  /** No encoding ends in a colon followed by another encoding. */
  ghost predicate NoTail<E(!new)>(encode: E -> string) {
    forall e: E, f: E, q: string :: encode(e) != q + ":" + encode(f)
  }

  ghost predicate ValidTimes<E>(blocks: seq<Block<E>>) {
    forall i :: 0 <= i < |blocks| ==> ValidTimestamp(blocks[i].timestamp)
  }

  /** Two ways to read one text as a previous hash and an encoding. */
  lemma ShorterHashLongerEvent(p: string, e: string, q: string, f: string)
    requires p + ([':'] + e) == q + ([':'] + f) && |p| < |q|
    ensures e == q[|p| + 1..] + ":" + f
  {
    var text := p + ([':'] + e);
    assert e == text[|p| + 1..];
    assert text == q + ([':'] + f);
  }

  lemma SameLengthSameParts(p: string, e: string, q: string, f: string)
    requires p + ([':'] + e) == q + ([':'] + f) && |p| == |q|
    ensures p == q && e == f
  {
    var text := p + ([':'] + e);
    assert p == text[..|p|] && q == text[..|p|] && e == text[|p| + 1..] && f == text[|p| + 1..];
  }

  /** The colon-joined record determines all its parts, whatever the previous hash is. */
  lemma RecordInjective<E(!new)>(a: Block<E>, b: Block<E>, encode: E -> string)
    requires Record(a, encode) == Record(b, encode) && Injective(encode) && NoTail(encode)
    requires ValidTimestamp(a.timestamp) && ValidTimestamp(b.timestamp)
    ensures a.index == b.index && a.timestamp == b.timestamp
    ensures a.previousHash == b.previousHash && a.event == b.event
  {
    hide PrintLocal, Digits, AllDigits, Record;
    var (p, e, q, f) := (a.previousHash, encode(a.event), b.previousHash, encode(b.event));
    RecordParts(a, encode);
    RecordParts(b, encode);
    DigitsInjective(a.index, b.index);
    TimestampInjective(a.timestamp, b.timestamp);
    assert ([':'] + (p + ([':'] + e)))[1..] == p + ([':'] + e);
    assert ([':'] + (q + ([':'] + f)))[1..] == q + ([':'] + f);
    if |p| < |q| {
      ShorterHashLongerEvent(p, e, q, f);
    } else if |q| < |p| {
      ShorterHashLongerEvent(q, f, p, e);
    } else {
      SameLengthSameParts(p, e, q, f);
    }
  }

  /** Cutting the record at its first colon, then at the first `Z`. */
  lemma RecordParts<E>(b: Block<E>, encode: E -> string)
    ensures var (index, rest, _) := Cut(Record(b, encode), ':');
            var (local, tail, _) := Cut(rest, 'Z');
            && index == Digits(b.index)
            && local == PrintLocal(b.timestamp)
            && tail == [':'] + (b.previousHash + ([':'] + encode(b.event)))
  {
    hide PrintLocal, Digits, Cut;
    var tail := [':'] + (b.previousHash + ([':'] + encode(b.event)));
    var rest := PrintLocal(b.timestamp) + ['Z'] + tail;
    assert Record(b, encode) == Digits(b.index) + [':'] + rest;
    DigitsHaveNoColon(Digits(b.index));
    CutAtSeparator(Digits(b.index), ':', rest);
    NoInnerZ(b.timestamp);
    CutAtSeparator(PrintLocal(b.timestamp), 'Z', tail);
  }

  lemma DigitsHaveNoColon(s: string)
    requires AllDigits(s)
    ensures ':' !in s
  {
  }

  /** Valid blocks with one record have the same parts. */
  ghost predicate RecordsDetermineBlocks<E(!new)>(encode: E -> string) {
    forall a: Block<E>, b: Block<E> ::
      Record(a, encode) == Record(b, encode) && ValidTimestamp(a.timestamp) && ValidTimestamp(b.timestamp) ==>
        && a.index == b.index && a.timestamp == b.timestamp
        && a.previousHash == b.previousHash && a.event == b.event
  }

  const SOME_TIME := Timestamp(2026, 1, 1, 0, 0, 0, 0)

  /** An encoding with a tail gives two blocks one record: the colon may stand on either side of the hash. */
  lemma TailMakesRecordAmbiguous<E>(encode: E -> string, e: E, f: E, p: string, q: string, now: Timestamp)
    requires encode(e) == q + ":" + encode(f)
    ensures var a, b := Block(1, now, e, p, ""), Block(1, now, f, p + ":" + q, "");
            Record(a, encode) == Record(b, encode) && a.previousHash != b.previousHash
  {
    hide PrintTimestamp, Digits;
    var head := Digits(1) + ":" + PrintTimestamp(now) + ":";
    assert head + p + ":" + (q + ":" + encode(f)) == head + (p + ":" + q) + ":" + encode(f);
    assert |p + ":" + q| > |p|;
  }

  lemma RecordSeesEncodingOnly<E>(encode: E -> string, e: E, f: E)
    requires encode(e) == encode(f)
    ensures Record(Block(1, SOME_TIME, e, "", ""), encode) == Record(Block(1, SOME_TIME, f, "", ""), encode)
  {
    hide PrintTimestamp, Digits;
  }

  /** Exactly what the record demands of the event encoding. */
  lemma RecordsDetermineBlocksExactly<E(!new)>(encode: E -> string)
    ensures RecordsDetermineBlocks(encode) <==> Injective(encode) && NoTail(encode)
  {
    hide Record;
    if RecordsDetermineBlocks(encode) {
      forall e: E, f: E | encode(e) == encode(f)
        ensures e == f
      {
        RecordSeesEncodingOnly(encode, e, f);
      }
      forall e: E, f: E, q: string
        ensures encode(e) != q + ":" + encode(f)
      {
        if encode(e) == q + ":" + encode(f) {
          TailMakesRecordAmbiguous(encode, e, f, "", q, SOME_TIME);
        }
      }
    } else if Injective(encode) && NoTail(encode) {
      forall a: Block<E>, b: Block<E>
        | Record(a, encode) == Record(b, encode) && ValidTimestamp(a.timestamp) && ValidTimestamp(b.timestamp)
        ensures a.index == b.index && a.timestamp == b.timestamp
        ensures a.previousHash == b.previousHash && a.event == b.event
      {
        RecordInjective(a, b, encode);
      }
    }
  }

  /** The JSON text of events is such an encoding, so a block's record determines the block. */
  lemma EventsEncodeSafely()
    ensures Injective(EventJson.EncodeEvent) && NoTail(EventJson.EncodeEvent)
    ensures RecordsDetermineBlocks(EventJson.EncodeEvent)
  {
    hide EventJson.EncodeEvent, RecordsDetermineBlocks;
    forall e: EventJson.Event, f: EventJson.Event | EventJson.EncodeEvent(e) == EventJson.EncodeEvent(f)
      ensures e == f
    {
      EventJson.EventTextUnique(e, f);
    }
    forall e: EventJson.Event, f: EventJson.Event, q: string
      ensures EventJson.EncodeEvent(e) != q + ":" + EventJson.EncodeEvent(f)
    {
      EventJson.NoEventInTail(e, f, q);
    }
    RecordsDetermineBlocksExactly(EventJson.EncodeEvent);
  }

  /** Two different records with one digest. */
  ghost predicate CollisionAt<E>(
    a: seq<Block<E>>, b: seq<Block<E>>, i: nat, encode: E -> string, hash: string -> string)
    requires i < |a| && i < |b|
  {
    Record(a[i], encode) != Record(b[i], encode) && hash(Record(a[i], encode)) == hash(Record(b[i], encode))
  }

  /**
   Tamper evidence. Two accepted chains of the same length that end in the same hash agree on every
   block after the genesis block, unless they exhibit a collision of the hash function.
   */
  lemma {:induction false} SameLastHashSameChain<E(!new)>(
    a: seq<Block<E>>, b: seq<Block<E>>, encode: E -> string, hash: string -> string)
    requires Injective(encode) && NoTail(encode)
    requires |a| == |b| > 0 && Accepted(a, encode, hash) && Accepted(b, encode, hash)
    requires ValidTimes(a) && ValidTimes(b)
    requires a[|a| - 1].hash == b[|b| - 1].hash
    ensures (exists i :: 0 < i < |a| && CollisionAt(a, b, i, encode, hash))
         || (a[0].hash == b[0].hash && a[1..] == b[1..])
    decreases |a|
  {
    hide Record, Injective, NoTail;
    var n := |a| - 1;
    if n > 0 && !CollisionAt(a, b, n, encode, hash) {
      LinkedLast(a, encode, hash);
      LinkedLast(b, encode, hash);
      RecordInjective(a[n], b[n], encode);
      assert a[n] == b[n];
      var c, d := a[..n], b[..n];
      AcceptedPrefix(a, n, encode, hash);
      AcceptedPrefix(b, n, encode, hash);
      SameLastHashSameChain(c, d, encode, hash);
      if i :| 0 < i < |c| && CollisionAt(c, d, i, encode, hash) {
        assert CollisionAt(a, b, i, encode, hash);
      } else {
        assert a[1..] == c[1..] + [a[n]] && b[1..] == d[1..] + [b[n]];
      }
    }
  }

  /** Tamper evidence of the audit log's own chains: nothing is assumed but what a collision would be. */
  lemma AuditLogIsTamperEvident(
    a: seq<Block<EventJson.Event>>, b: seq<Block<EventJson.Event>>, hash: string -> string)
    requires |a| == |b| > 0
    requires Accepted(a, EventJson.EncodeEvent, hash) && Accepted(b, EventJson.EncodeEvent, hash)
    requires ValidTimes(a) && ValidTimes(b)
    requires a[|a| - 1].hash == b[|b| - 1].hash
    ensures (exists i :: 0 < i < |a| && CollisionAt(a, b, i, EventJson.EncodeEvent, hash))
         || (a[0].hash == b[0].hash && a[1..] == b[1..])
  {
    EventsEncodeSafely();
    SameLastHashSameChain(a, b, EventJson.EncodeEvent, hash);
  }

  lemma LinkedLast<E>(a: seq<Block<E>>, encode: E -> string, hash: string -> string)
    requires |a| > 1 && Accepted(a, encode, hash)
    ensures var n := |a| - 1;
            && a[n].previousHash == a[n - 1].hash
            && a[n].hash == hash(Record(a[n], encode))
  {
    hide Record;
    assert Linked(a, |a| - 1, encode, hash);
  }

  lemma AcceptedPrefix<E>(a: seq<Block<E>>, n: nat, encode: E -> string, hash: string -> string)
    requires 0 < n <= |a| && Accepted(a, encode, hash)
    ensures Accepted(a[..n], encode, hash)
  {
    hide CalculateHash;
    forall i | 0 < i < n
      ensures Linked(a[..n], i, encode, hash)
    {
      assert Linked(a, i, encode, hash);
    }
  }

  /**
   What the sweep does not see: of the genesis block it looks at the stored hash alone, and only if a
   block follows. Its event, time and index may be anything, and a chain of one block is always accepted.
   */
  lemma GenesisIsUnchecked<E>(
    a: seq<Block<E>>, forged: Block<E>, encode: E -> string, hash: string -> string)
    requires a != [] && Accepted(a, encode, hash)
    ensures Accepted(a[0 := forged], encode, hash) <==> |a| == 1 || forged.hash == a[0].hash
  {
    hide CalculateHash;
    var b := a[0 := forged];
    if |a| > 1 {
      assert Linked(a, 1, encode, hash);
      if forged.hash == a[0].hash {
        forall i | 0 < i < |b|
          ensures Linked(b, i, encode, hash)
        {
          assert Linked(a, i, encode, hash);
        }
      } else {
        assert !Linked(b, 1, encode, hash);
      }
    }
  }
}
