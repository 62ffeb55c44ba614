/** The bounded, newest-first log of inventory updates (`inventoryLogs` in
    server.js): each accepted update is put at the front, and when that makes
    the log longer than 20 its last, oldest, entry is dropped. */
module InventoryLog {

  /** The length above which the oldest entry is dropped. */
  const Capacity: nat := 20

  /** A value read out of the decoded JSON payload. The handler copies it
      into the log as it is, whatever it is; `Undefined` is a missing key. */
  datatype Json = Undefined | Null | Bool(b: bool) | Num(n: int) | Str(s: string)

  /** The fields of the webhook's JSON body that the handler reads. */
  datatype Payload = Payload(inventoryItemId: Json, available: Json)

  /** One record of the log: the two payload fields and the ISO time at
      which the server received them. */
  datatype LogEntry = LogEntry(inventoryItemId: Json, available: Json, updatedAt: string)

  /** The record `{inventory_item_id, available, updated_at}` built from a payload. */
  function EntryOf(p: Payload, now: string): LogEntry
  {
    LogEntry(p.inventoryItemId, p.available, now)
  }

  /** The log after `unshift(e)` and, if it then exceeds the capacity, `pop()`. */
  function Recorded(log: seq<LogEntry>, e: LogEntry): (r: seq<LogEntry>)
    // the new entry is the newest
    ensures |r| > 0 && r[0] == e
    // below capacity: grows by one, older entries follow in their order
    ensures |log| < Capacity ==> |r| == |log| + 1 && r[1..] == log
    // at or above capacity: same length, the oldest is gone, the rest shift back
    ensures |log| >= Capacity ==> |r| == |log| && r[1..] == log[..|log| - 1]
  {
    var grown := [e] + log;
    if |grown| > Capacity then grown[..|grown| - 1] else grown
  }

  /** The capacity is an invariant of recording. */
  lemma RecordedKeepsBound(log: seq<LogEntry>, e: LogEntry)
    requires |log| <= Capacity
    ensures |Recorded(log, e)| <= Capacity
    ensures |Recorded(log, e)| == if |log| < Capacity then |log| + 1 else Capacity
  {
  }

  /** The log after recording `es` one after the other, `es[0]` first. */
  function RecordedAll(log: seq<LogEntry>, es: seq<LogEntry>): seq<LogEntry>
  {
    if es == [] then log
    else Recorded(RecordedAll(log, es[..|es| - 1]), es[|es| - 1])
  }

  /** `es` newest first: the last one recorded comes first. */
  function NewestFirst(es: seq<LogEntry>): (r: seq<LogEntry>)
    ensures |r| == |es|
    ensures forall i :: 0 <= i < |es| ==> r[i] == es[|es| - 1 - i]
  {
    if es == [] then [] else [es[|es| - 1]] + NewestFirst(es[..|es| - 1])
  }

  function Min(a: nat, b: nat): nat
  {
    if a < b then a else b
  }

  /** Recording `es` into a log within capacity leaves the newest entries of
      `es` followed by the old log, cut to the capacity. */
  lemma {:induction false} RecordedAllKeepsNewest(log: seq<LogEntry>, es: seq<LogEntry>)
    requires |log| <= Capacity
    ensures RecordedAll(log, es) == (NewestFirst(es) + log)[..Min(|es| + |log|, Capacity)]
  {
    if es != [] {
      var init, last := es[..|es| - 1], es[|es| - 1];
      RecordedAllKeepsNewest(log, init);
      var before := RecordedAll(log, init);
      var k := Min(|init| + |log|, Capacity);
      assert before == (NewestFirst(init) + log)[..k];
      assert NewestFirst(es) + log == [last] + (NewestFirst(init) + log);
      assert [last] + before == (NewestFirst(es) + log)[..k + 1];
      if k == Capacity {
        assert Recorded(before, last) == ([last] + before)[..Capacity];
      }
    }
  }

  /** From an empty log, N updates leave min(N, 20) entries: the most recent
      ones, newest first. */
  lemma {:induction false} InsertsFromEmpty(es: seq<LogEntry>)
    ensures |RecordedAll([], es)| == Min(|es|, Capacity)
    ensures RecordedAll([], es) == NewestFirst(es)[..Min(|es|, Capacity)]
  {
    RecordedAllKeepsNewest([], es);
    assert NewestFirst(es) + [] == NewestFirst(es);
  }

  /** 25 updates from an empty log leave exactly 20: the last 20, newest
      first; the 5 oldest are evicted. */
  lemma {:induction false} TwentyFiveInserts(es: seq<LogEntry>)
    requires |es| == 25
    ensures RecordedAll([], es) == NewestFirst(es[5..])
  {
    InsertsFromEmpty(es);
    var r := RecordedAll([], es);
    assert |r| == 20;
    forall i | 0 <= i < 20 ensures r[i] == NewestFirst(es[5..])[i] {
    }
  }
}
