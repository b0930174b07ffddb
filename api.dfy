/** redisimp/api.py: copying every key of one Redis server into another.
    read_keys walks the SCAN cursor, read_data_and_pttl fetches each key's
    DUMP payload and PTTL through one pipeline, and copy queues a DELETE and
    a RESTORE per key into one destination pipeline per scanned batch.
    The servers are values and objects of this module: a source answers
    SCAN, DUMP and PTTL from a data set that does not change while it is
    copied, and a destination records the command batches it executes. */
module Api {
  import opened Wrappers

  type byte = bv8
  type Key = seq<byte>

  /** The COUNT hint read_keys gives every SCAN. */
  const BATCH_SIZE: nat := 500

  /** A SCAN reply: the cursor to continue from (0 when the walk is over)
      and the keys of this step. */
  datatype ScanReply = ScanReply(cursor: nat, keys: seq<Key>)

  /** A source server: SCAN by cursor, count hint and MATCH pattern, and the
      DUMP payload and PTTL of every key. */
  datatype Source = Source(
    scan: (nat, nat, Option<string>) -> ScanReply,
    dump: Key -> seq<byte>,
    pttl: Key -> int)

  /** The two commands read_data_and_pttl queues on the source. */
  datatype ReadCommand = Dump(key: Key) | Pttl(key: Key)

  datatype Reply = Bulk(data: seq<byte>) | Integer(n: int)

  /** What the source answers to a queued read command. */
  function Answer(src: Source, c: ReadCommand): Reply {
    match c
    case Dump(k) => Bulk(src.dump(k))
    case Pttl(k) => Integer(src.pttl(k))
  }

  /** The two commands copy queues on the destination. */
  datatype Command = Delete(key: Key) | Restore(key: Key, ttl: nat, data: seq<byte>)

  /** A key read_data_and_pttl yields: its DUMP payload and its TTL in
      milliseconds, 0 meaning none. */
  datatype Item = Item(key: Key, data: seq<byte>, ttl: nat)

  /** What the copy generator does, in order: yield a key, or execute the
      destination pipeline holding these commands. */
  datatype Event = Yielded(key: Key) | Executed(commands: seq<Command>)

  // ----- SCAN -----

  /** The SCAN walk from cursor reaches cursor 0 within fuel steps. The
      walk over a fixed data set always ends; fuel bounds it. */
  predicate ScanEndsWithin(src: Source, pattern: Option<string>, cursor: nat, fuel: nat)
    decreases fuel
  {
    fuel > 0 &&
    var reply := src.scan(cursor, BATCH_SIZE, pattern);
    reply.cursor == 0 || ScanEndsWithin(src, pattern, reply.cursor, fuel - 1)
  }

  /** The replies of the SCAN walk from cursor up to and including the one
      that returns cursor 0. */
  function ScanChain(src: Source, pattern: Option<string>, cursor: nat, fuel: nat): (r: seq<ScanReply>)
    requires ScanEndsWithin(src, pattern, cursor, fuel)
    ensures |r| >= 1 && r[0] == src.scan(cursor, BATCH_SIZE, pattern)
    decreases fuel
  {
    var reply := src.scan(cursor, BATCH_SIZE, pattern);
    if reply.cursor == 0 then [reply] else [reply] + ScanChain(src, pattern, reply.cursor, fuel - 1)
  }

  /** The walk continues from each reply's cursor, and only the last reply
      returns cursor 0. */
  lemma {:induction false} ScanChainShape(src: Source, pattern: Option<string>, cursor: nat, fuel: nat)
    requires ScanEndsWithin(src, pattern, cursor, fuel)
    ensures var r := ScanChain(src, pattern, cursor, fuel);
      && r[|r| - 1].cursor == 0
      && (forall i :: 0 <= i < |r| - 1 ==> r[i].cursor != 0 && r[i + 1] == src.scan(r[i].cursor, BATCH_SIZE, pattern))
    decreases fuel
  {
    var reply := src.scan(cursor, BATCH_SIZE, pattern);
    if reply.cursor != 0 {
      ScanChainShape(src, pattern, reply.cursor, fuel - 1);
      var rest := ScanChain(src, pattern, reply.cursor, fuel - 1);
      var r := ScanChain(src, pattern, cursor, fuel);
      assert r == [reply] + rest;
      forall i | 0 <= i < |r| - 1
        ensures r[i].cursor != 0 && r[i + 1] == src.scan(r[i].cursor, BATCH_SIZE, pattern)
      {
        if i > 0 {
          assert r[i] == rest[i - 1] && r[i + 1] == rest[i];
        }
      }
    }
  }

  /** The walk does not depend on the bound: any sufficient fuel gives the
      same replies. */
  lemma {:induction false} ScanChainFuel(src: Source, pattern: Option<string>, cursor: nat, fuel1: nat, fuel2: nat)
    requires ScanEndsWithin(src, pattern, cursor, fuel1) && ScanEndsWithin(src, pattern, cursor, fuel2)
    ensures ScanChain(src, pattern, cursor, fuel1) == ScanChain(src, pattern, cursor, fuel2)
    decreases fuel1
  {
    var reply := src.scan(cursor, BATCH_SIZE, pattern);
    if reply.cursor != 0 {
      ScanChainFuel(src, pattern, reply.cursor, fuel1 - 1, fuel2 - 1);
    }
  }

  /** The key lists of the replies, in order, empty ones left out. */
  function KeyBatches(chain: seq<ScanReply>): (r: seq<seq<Key>>)
    ensures forall i :: 0 <= i < |r| ==> |r[i]| > 0
  {
    if chain == [] then []
    else ReplyBatch(chain[0]) + KeyBatches(chain[1..])
  }

  /** Every key the walk returned, in order. */
  function ScannedKeys(chain: seq<ScanReply>): seq<Key> {
    if chain == [] then [] else chain[0].keys + ScannedKeys(chain[1..])
  }

  /** The batches concatenated, first to last. */
  function Flatten(batches: seq<seq<Key>>): seq<Key> {
    if batches == [] then [] else Flatten(batches[..|batches| - 1]) + batches[|batches| - 1]
  }

  lemma {:induction false} FlattenAppend(a: seq<seq<Key>>, b: seq<seq<Key>>)
    ensures Flatten(a + b) == Flatten(a) + Flatten(b)
    decreases |b|
  {
    if b == [] {
      assert a + b == a;
    } else {
      var n := |b| - 1;
      assert (a + b)[..|a + b| - 1] == a + b[..n];
      FlattenAppend(a, b[..n]);
    }
  }

  /** A reply's batch holds exactly its keys. */
  lemma FlattenReplyBatch(reply: ScanReply)
    ensures Flatten(ReplyBatch(reply)) == reply.keys
  {
    if |reply.keys| > 0 {
      assert [reply.keys][..0] == [];
    }
  }

  /** Leaving out the empty replies loses no key. */
  lemma {:induction false} FlattenKeyBatches(chain: seq<ScanReply>)
    ensures Flatten(KeyBatches(chain)) == ScannedKeys(chain)
  {
    if chain != [] {
      var head := ReplyBatch(chain[0]);
      var rest := KeyBatches(chain[1..]);
      assert KeyBatches(chain) == head + rest;
      assert ScannedKeys(chain) == chain[0].keys + ScannedKeys(chain[1..]);
      FlattenKeyBatches(chain[1..]);
      FlattenAppend(head, rest);
      FlattenReplyBatch(chain[0]);
    }
  }

  lemma KeyBatchesCons(reply: ScanReply, rest: seq<ScanReply>)
    ensures KeyBatches([reply] + rest) == ReplyBatch(reply) + KeyBatches(rest)
  {
    assert ([reply] + rest)[1..] == rest;
  }

  /** The batch a SCAN reply contributes: its keys, unless there are none. */
  function ReplyBatch(reply: ScanReply): (r: seq<seq<Key>>)
    ensures |r| <= 1 && (|r| == 1 <==> |reply.keys| > 0)
  {
    if |reply.keys| > 0 then [reply.keys] else []
  }

  /** The last SCAN step of read_keys: the reply's batch ends the list. */
  lemma ScanStepLast(src: Source, pattern: Option<string>, cursor: nat, left: nat, reply: ScanReply)
    requires ScanEndsWithin(src, pattern, cursor, left)
    requires reply == src.scan(cursor, BATCH_SIZE, pattern) && reply.cursor == 0
    ensures KeyBatches(ScanChain(src, pattern, cursor, left)) == ReplyBatch(reply)
  {
    assert ScanChain(src, pattern, cursor, left) == [reply];
    KeyBatchesCons(reply, []);
  }

  /** A SCAN step of read_keys with more to come: the reply's batch, then
      the rest of the walk. */
  lemma ScanStepMore(src: Source, pattern: Option<string>, cursor: nat, left: nat, reply: ScanReply, done: seq<seq<Key>>)
    requires ScanEndsWithin(src, pattern, cursor, left)
    requires reply == src.scan(cursor, BATCH_SIZE, pattern) && reply.cursor != 0
    ensures left >= 1 && ScanEndsWithin(src, pattern, reply.cursor, left - 1)
    ensures done + KeyBatches(ScanChain(src, pattern, cursor, left))
      == (done + ReplyBatch(reply)) + KeyBatches(ScanChain(src, pattern, reply.cursor, left - 1))
  {
    var rest := ScanChain(src, pattern, reply.cursor, left - 1);
    assert ScanChain(src, pattern, cursor, left) == [reply] + rest;
    KeyBatchesCons(reply, rest);
    assert done + ReplyBatch(reply) + KeyBatches(rest) == done + (ReplyBatch(reply) + KeyBatches(rest));
  }

  /** read_keys: SCAN from cursor 0 with COUNT 500, continuing from each
      reply's cursor until one returns 0, collecting the non-empty key
      lists. */
  method ReadKeys(src: Source, pattern: Option<string>, ghost fuel: nat) returns (batches: seq<seq<Key>>)
    requires ScanEndsWithin(src, pattern, 0, fuel)
    ensures batches == KeyBatches(ScanChain(src, pattern, 0, fuel))
  {
    var cursor: nat := 0;
    batches := [];
    ghost var left := fuel;
    assert [] + KeyBatches(ScanChain(src, pattern, cursor, left)) == KeyBatches(ScanChain(src, pattern, 0, fuel));
    while true
      invariant ScanEndsWithin(src, pattern, cursor, left)
      invariant batches + KeyBatches(ScanChain(src, pattern, cursor, left)) == KeyBatches(ScanChain(src, pattern, 0, fuel))
      decreases left
    {
      var reply := src.scan(cursor, BATCH_SIZE, pattern);
      ghost var before := batches;
      if |reply.keys| > 0 {
        batches := batches + [reply.keys];
      }
      assert batches == before + ReplyBatch(reply);
      if reply.cursor == 0 {
        ScanStepLast(src, pattern, cursor, left, reply);
        return;
      }
      ScanStepMore(src, pattern, cursor, left, reply, before);
      cursor := reply.cursor;
      left := left - 1;
    }
  }

  // ----- DUMP and PTTL -----

  /** `pttl < 1` becomes 0: no expiry, or an expiry already due. */
  function ClampTtl(pttl: int): nat {
    if pttl < 1 then 0 else pttl
  }

  /** What read_data_and_pttl yields for keys, stated key by key: every key
      whose DUMP payload is non-empty, in order, with its payload and its
      clamped PTTL. */
  function Fetched(src: Source, keys: seq<Key>): seq<Item>
    decreases |keys|
  {
    if keys == [] then []
    else
      var k := keys[|keys| - 1];
      var rest := Fetched(src, keys[..|keys| - 1]);
      if |src.dump(k)| < 1 then rest else rest + [Item(k, src.dump(k), ClampTtl(src.pttl(k)))]
  }

  function KeysOf(items: seq<Item>): (r: seq<Key>)
    ensures |r| == |items|
  {
    seq(|items|, i requires 0 <= i < |items| => items[i].key)
  }

  /** read_data_and_pttl yields exactly the keys with a non-empty payload,
      in their order, never more items than keys. */
  lemma {:induction false} FetchedKeys(src: Source, keys: seq<Key>)
    ensures |Fetched(src, keys)| <= |keys|
    ensures forall k :: k in KeysOf(Fetched(src, keys)) <==> k in keys && |src.dump(k)| >= 1
    decreases |keys|
  {
    if keys != [] {
      var n := |keys| - 1;
      var k := keys[n];
      FetchedKeys(src, keys[..n]);
      var rest := Fetched(src, keys[..n]);
      assert keys == keys[..n] + [k];
      if |src.dump(k)| >= 1 {
        var item := Item(k, src.dump(k), ClampTtl(src.pttl(k)));
        assert KeysOf(rest + [item]) == KeysOf(rest) + [k];
      }
    }
  }

  /** An item as the source holds it: the key's dumped payload, non-empty,
      and a TTL that is the key's PTTL when positive and 0 otherwise. */
  predicate FromSource(src: Source, it: Item) {
    && it.data == src.dump(it.key)
    && |it.data| >= 1
    && (src.pttl(it.key) >= 1 ==> it.ttl == src.pttl(it.key))
    && (src.pttl(it.key) < 1 ==> it.ttl == 0)
  }

  /** Each yielded item carries what the source holds for its key. */
  lemma {:induction false} FetchedItems(src: Source, keys: seq<Key>)
    ensures forall i :: 0 <= i < |Fetched(src, keys)| ==> FromSource(src, Fetched(src, keys)[i])
    decreases |keys|
  {
    if keys != [] {
      var n := |keys| - 1;
      FetchedItems(src, keys[..n]);
      var rest := Fetched(src, keys[..n]);
      var k := keys[n];
      if |src.dump(k)| >= 1 {
        var it := Item(k, src.dump(k), ClampTtl(src.pttl(k)));
        assert FromSource(src, it);
        assert Fetched(src, keys) == rest + [it];
        forall i | 0 <= i < |rest| + 1
          ensures FromSource(src, (rest + [it])[i])
        {
          if i < |rest| {
            assert (rest + [it])[i] == rest[i];
          }
        }
      } else {
        assert Fetched(src, keys) == rest;
      }
    }
  }

  /** A pipeline on the source: the read commands queued so far. */
  class ReadPipeline {
    var queued: seq<ReadCommand>

    constructor ()
      ensures queued == []
    {
      queued := [];
    }

    method Queue(c: ReadCommand)
      modifies this
      ensures queued == old(queued) + [c]
    {
      queued := queued + [c];
    }

    /** execute(): one reply per queued command, in queue order. */
    method Execute(src: Source) returns (replies: seq<Reply>)
      modifies this
      ensures |replies| == |old(queued)|
      ensures forall i :: 0 <= i < |replies| ==> replies[i] == Answer(src, old(queued)[i])
      ensures queued == []
    {
      var commands := queued;
      replies := seq(|commands|, i requires 0 <= i < |commands| => Answer(src, commands[i]));
      queued := [];
    }
  }

  /** read_data_and_pttl: DUMP and PTTL of every key through one pipeline,
      the reply at 2i being key i's payload and the one at 2i+1 its PTTL;
      keys with an empty payload are skipped and a PTTL below 1 becomes 0. */
  method ReadDataAndPttl(src: Source, keys: seq<Key>) returns (items: seq<Item>)
    ensures items == Fetched(src, keys)
  {
    var pipe := new ReadPipeline();
    for i := 0 to |keys|
      invariant |pipe.queued| == 2 * i
      invariant forall j :: 0 <= j < i ==>
        pipe.queued[2 * j] == Dump(keys[j]) && pipe.queued[2 * j + 1] == Pttl(keys[j])
    {
      pipe.Queue(Dump(keys[i]));
      pipe.Queue(Pttl(keys[i]));
    }
    var res := pipe.Execute(src);
    items := [];
    for i := 0 to |keys|
      invariant items == Fetched(src, keys[..i])
    {
      var ii := i * 2;
      assert res[ii] == Answer(src, Dump(keys[i])) && res[ii + 1] == Answer(src, Pttl(keys[i]));
      var data := res[ii].data;
      var pttl := res[ii + 1].n;
      assert keys[..i + 1][..i] == keys[..i];
      if |data| < 1 {
        continue;
      }
      if pttl < 1 {
        pttl := 0;
      }
      items := items + [Item(keys[i], data, pttl)];
    }
    assert keys[..|keys|] == keys;
  }

  // ----- copy -----

  /** The commands copy queues for items: DELETE then RESTORE, key by key. */
  function Commands(items: seq<Item>): seq<Command>
    decreases |items|
  {
    if items == [] then []
    else
      var it := items[|items| - 1];
      Commands(items[..|items| - 1]) + [Delete(it.key), Restore(it.key, it.ttl, it.data)]
  }

  /** Item i's DELETE is command 2i and its RESTORE, with the item's TTL and
      payload, is command 2i+1. */
  lemma {:induction false} CommandPairs(items: seq<Item>)
    ensures |Commands(items)| == 2 * |items|
    ensures forall i :: 0 <= i < |items| ==>
      && Commands(items)[2 * i] == Delete(items[i].key)
      && Commands(items)[2 * i + 1] == Restore(items[i].key, items[i].ttl, items[i].data)
    decreases |items|
  {
    if items != [] {
      CommandPairs(items[..|items| - 1]);
    }
  }

  function Yields(items: seq<Item>): (r: seq<Event>)
    ensures |r| == |items|
  {
    seq(|items|, i requires 0 <= i < |items| => Yielded(items[i].key))
  }

  /** What copy does for the scanned batches, in order: for each batch it
      yields the fetched keys, then executes their commands in one go. */
  function CopyEventsOf(src: Source, batches: seq<seq<Key>>): seq<Event>
    decreases |batches|
  {
    if batches == [] then []
    else
      var items := Fetched(src, batches[|batches| - 1]);
      CopyEventsOf(src, batches[..|batches| - 1]) + Yields(items) + [Executed(Commands(items))]
  }

  /** What copy does for a source whose SCAN walk ends within fuel steps. */
  function CopyEvents(src: Source, pattern: Option<string>, fuel: nat): seq<Event>
    requires ScanEndsWithin(src, pattern, 0, fuel)
  {
    CopyEventsOf(src, KeyBatches(ScanChain(src, pattern, 0, fuel)))
  }

  /** The keys a trace yields, in order. */
  function YieldedKeys(events: seq<Event>): seq<Key>
    decreases |events|
  {
    if events == [] then []
    else
      var e := events[|events| - 1];
      YieldedKeys(events[..|events| - 1]) + (if e.Yielded? then [e.key] else [])
  }

  /** The command batches a trace executes, in order. */
  function Executions(events: seq<Event>): seq<seq<Command>>
    decreases |events|
  {
    if events == [] then []
    else
      var e := events[|events| - 1];
      Executions(events[..|events| - 1]) + (if e.Executed? then [e.commands] else [])
  }

  lemma {:induction false} TraceAppend(a: seq<Event>, b: seq<Event>)
    ensures YieldedKeys(a + b) == YieldedKeys(a) + YieldedKeys(b)
    ensures Executions(a + b) == Executions(a) + Executions(b)
    decreases |b|
  {
    if b == [] {
      assert a + b == a;
    } else {
      var n := |b| - 1;
      assert (a + b)[..|a + b| - 1] == a + b[..n];
      TraceAppend(a, b[..n]);
    }
  }

  lemma {:induction false} YieldsTrace(items: seq<Item>)
    ensures YieldedKeys(Yields(items)) == KeysOf(items)
    ensures Executions(Yields(items)) == []
    decreases |items|
  {
    if items != [] {
      var n := |items| - 1;
      assert Yields(items)[..n] == Yields(items[..n]);
      YieldsTrace(items[..n]);
      assert KeysOf(items) == KeysOf(items[..n]) + [items[n].key];
    }
  }

  /** One batch of copy appended to a trace: its fetched keys are yielded,
      and its commands are executed once. */
  lemma BatchStep(prior: seq<Event>, items: seq<Item>)
    ensures var e := prior + Yields(items) + [Executed(Commands(items))];
      && YieldedKeys(e) == YieldedKeys(prior) + KeysOf(items)
      && Executions(e) == Executions(prior) + [Commands(items)]
  {
    var ys := Yields(items);
    var x := Executed(Commands(items));
    TraceAppend(prior, ys);
    YieldsTrace(items);
    var e := prior + ys + [x];
    assert e[..|e| - 1] == prior + ys;
    assert YieldedKeys(e) == YieldedKeys(prior + ys);
    assert Executions(e) == Executions(prior + ys) + [Commands(items)];
    assert Executions(prior + ys) == Executions(prior) + [];
  }

  lemma CopyEventsStep(src: Source, batches: seq<seq<Key>>)
    requires batches != []
    ensures var n := |batches| - 1;
      var items := Fetched(src, batches[n]);
      var e := CopyEventsOf(src, batches);
      var prior := CopyEventsOf(src, batches[..n]);
      && YieldedKeys(e) == YieldedKeys(prior) + KeysOf(items)
      && Executions(e) == Executions(prior) + [Commands(items)]
  {
    var n := |batches| - 1;
    BatchStep(CopyEventsOf(src, batches[..n]), Fetched(src, batches[n]));
  }

  /** copy yields a key exactly when SCAN returned it and its payload is
      non-empty. */
  lemma {:induction false} CopyKeysOf(src: Source, batches: seq<seq<Key>>)
    ensures forall k :: k in YieldedKeys(CopyEventsOf(src, batches)) <==> k in Flatten(batches) && |src.dump(k)| >= 1
    decreases |batches|
  {
    if batches != [] {
      var n := |batches| - 1;
      CopyKeysOf(src, batches[..n]);
      CopyEventsStep(src, batches);
      FetchedKeys(src, batches[n]);
      assert Flatten(batches) == Flatten(batches[..n]) + batches[n];
    }
  }

  lemma CopyKeys(src: Source, pattern: Option<string>, fuel: nat)
    requires ScanEndsWithin(src, pattern, 0, fuel)
    ensures forall k :: k in YieldedKeys(CopyEvents(src, pattern, fuel)) <==>
      k in ScannedKeys(ScanChain(src, pattern, 0, fuel)) && |src.dump(k)| >= 1
  {
    var chain := ScanChain(src, pattern, 0, fuel);
    CopyKeysOf(src, KeyBatches(chain));
    FlattenKeyBatches(chain);
  }

  /** The commands of each batch's fetched items, batch by batch. */
  function BatchCommands(src: Source, batches: seq<seq<Key>>): (r: seq<seq<Command>>)
    ensures |r| == |batches|
  {
    seq(|batches|, i requires 0 <= i < |batches| => Commands(Fetched(src, batches[i])))
  }

  lemma BatchCommandsSnoc(src: Source, batches: seq<seq<Key>>)
    requires batches != []
    ensures var n := |batches| - 1;
      BatchCommands(src, batches) == BatchCommands(src, batches[..n]) + [Commands(Fetched(src, batches[n]))]
  {
  }

  /** copy executes one pipeline per scanned batch, batch i holding the
      commands for batch i's fetched keys. */
  lemma {:induction false} CopyExecutions(src: Source, batches: seq<seq<Key>>)
    ensures Executions(CopyEventsOf(src, batches)) == BatchCommands(src, batches)
    decreases |batches|
  {
    if batches != [] {
      var n := |batches| - 1;
      CopyExecutions(src, batches[..n]);
      CopyEventsStep(src, batches);
      BatchCommandsSnoc(src, batches);
    }
  }

  /** Every yielded key is deleted by a pipeline executed later on. */
  predicate DeletedAfterYield(e: seq<Event>) {
    forall j :: 0 <= j < |e| && e[j].Yielded? ==>
      exists m :: j < m < |e| && e[m].Executed? && Delete(e[j].key) in e[m].commands
  }

  /** Every key copy yields is followed, later in the trace, by the execute
      of a pipeline that deletes it. */
  lemma {:induction false} YieldBeforeExecute(src: Source, batches: seq<seq<Key>>)
    ensures DeletedAfterYield(CopyEventsOf(src, batches))
    decreases |batches|
  {
    if batches != [] {
      var n := |batches| - 1;
      var items := Fetched(src, batches[n]);
      var prior := CopyEventsOf(src, batches[..n]);
      YieldBeforeExecute(src, batches[..n]);
      var e := CopyEventsOf(src, batches);
      var last := |e| - 1;
      assert e == prior + Yields(items) + [Executed(Commands(items))];
      CommandPairs(items);
      forall j | 0 <= j < |e| && e[j].Yielded?
        ensures exists m :: j < m < |e| && e[m].Executed? && Delete(e[j].key) in e[m].commands
      {
        if j < |prior| {
          assert e[j] == prior[j] && prior[j].Yielded?;
          var m :| j < m < |prior| && prior[m].Executed? && Delete(prior[j].key) in prior[m].commands;
          assert e[m] == prior[m];
        } else {
          var i := j - |prior|;
          assert e[j] == Yielded(items[i].key);
          assert Commands(items)[2 * i] == Delete(items[i].key);
          assert e[last] == Executed(Commands(items));
        }
      }
    }
  }

  /** Every key a pipeline deletes was yielded earlier in the trace. */
  ghost predicate YieldedBeforeDeleted(e: seq<Event>) {
    forall m, k :: 0 <= m < |e| && e[m].Executed? && Delete(k) in e[m].commands ==>
      exists j :: 0 <= j < m && e[j] == Yielded(k)
  }

  /** The only DELETEs among the commands for items are those of the items' keys. */
  lemma {:induction false} DeleteIsItem(items: seq<Item>, k: Key)
    requires Delete(k) in Commands(items)
    ensures exists i :: 0 <= i < |items| && items[i].key == k
    decreases |items|
  {
    var n := |items| - 1;
    var init := items[..n];
    assert Commands(items) == Commands(init) + [Delete(items[n].key), Restore(items[n].key, items[n].ttl, items[n].data)];
    if Delete(k) in Commands(init) {
      DeleteIsItem(init, k);
      var i :| 0 <= i < |init| && init[i].key == k;
      assert items[i] == init[i];
    } else {
      assert items[n].key == k;
    }
  }

  /** copy deletes no key on the destination before it has yielded it: the
      pipeline holding a key's DELETE is executed after the key's yield. */
  lemma {:induction false} DeleteOnlyAfterYield(src: Source, batches: seq<seq<Key>>)
    ensures YieldedBeforeDeleted(CopyEventsOf(src, batches))
    decreases |batches|
  {
    if batches != [] {
      var n := |batches| - 1;
      var items := Fetched(src, batches[n]);
      var prior := CopyEventsOf(src, batches[..n]);
      DeleteOnlyAfterYield(src, batches[..n]);
      var e := CopyEventsOf(src, batches);
      var last := |e| - 1;
      assert e == prior + Yields(items) + [Executed(Commands(items))];
      forall m, k | 0 <= m < |e| && e[m].Executed? && Delete(k) in e[m].commands
        ensures exists j :: 0 <= j < m && e[j] == Yielded(k)
      {
        if m < |prior| {
          assert e[m] == prior[m];
          var j :| 0 <= j < m && prior[j] == Yielded(k);
          assert e[j] == prior[j];
        } else {
          assert m == last;
          DeleteIsItem(items, k);
          var i :| 0 <= i < |items| && items[i].key == k;
          assert e[|prior| + i] == Yielded(items[i].key);
        }
      }
    }
  }

  /** A destination server: the command batches it has executed, in order. */
  class Destination {
    var executed: seq<seq<Command>>

    constructor ()
      ensures executed == []
    {
      executed := [];
    }
  }

  /** A pipeline on the destination: the commands queued so far. */
  class WritePipeline {
    var queued: seq<Command>

    constructor ()
      ensures queued == []
    {
      queued := [];
    }

    method Queue(c: Command)
      modifies this
      ensures queued == old(queued) + [c]
    {
      queued := queued + [c];
    }

    /** execute(): the destination runs the queued commands as one batch. */
    method Execute(dst: Destination)
      modifies this, dst
      ensures dst.executed == old(dst.executed) + [old(queued)]
      ensures queued == []
    {
      dst.executed := dst.executed + [queued];
      queued := [];
    }
  }

  /** One batch of copy: a fresh destination pipeline gets a DELETE and a
      RESTORE per fetched key, each key is yielded as soon as its commands
      are queued, and the pipeline is executed once at the end. */
  method CopyBatch(src: Source, dst: Destination, keys: seq<Key>) returns (events: seq<Event>)
    modifies dst
    ensures var items := Fetched(src, keys);
      events == Yields(items) + [Executed(Commands(items))]
    ensures dst.executed == old(dst.executed) + [Commands(Fetched(src, keys))]
  {
    var pipe := new WritePipeline();
    var items := ReadDataAndPttl(src, keys);
    events := [];
    for j := 0 to |items|
      invariant pipe.queued == Commands(items[..j])
      invariant events == Yields(items[..j])
      invariant dst.executed == old(dst.executed)
    {
      pipe.Queue(Delete(items[j].key));
      pipe.Queue(Restore(items[j].key, items[j].ttl, items[j].data));
      assert items[..j + 1][..j] == items[..j];
      assert Yields(items[..j + 1]) == Yields(items[..j]) + [Yielded(items[j].key)];
      events := events + [Yielded(items[j].key)];
    }
    assert items[..|items|] == items;
    pipe.Execute(dst);
    events := events + [Executed(Commands(items))];
  }

  lemma CopyEventsPrefix(src: Source, batches: seq<seq<Key>>, b: nat)
    requires b < |batches|
    ensures var items := Fetched(src, batches[b]);
      CopyEventsOf(src, batches[..b + 1])
        == CopyEventsOf(src, batches[..b]) + Yields(items) + [Executed(Commands(items))]
  {
    assert batches[..b + 1][..b] == batches[..b];
  }

  /** The batches in turn, each as CopyBatch describes. */
  method CopyBatches(src: Source, dst: Destination, batches: seq<seq<Key>>)
    returns (events: seq<Event>)
    modifies dst
    ensures events == CopyEventsOf(src, batches)
    ensures dst.executed == old(dst.executed) + Executions(events)
  {
    events := [];
    for b := 0 to |batches|
      invariant events == CopyEventsOf(src, batches[..b])
      invariant dst.executed == old(dst.executed) + Executions(events)
    {
      ghost var prior := events;
      var batchEvents := CopyBatch(src, dst, batches[b]);
      events := events + batchEvents;
      BatchStep(prior, Fetched(src, batches[b]));
      CopyEventsPrefix(src, batches, b);
    }
    assert batches[..|batches|] == batches;
  }

  /** copy: the keys SCAN returns, batch by batch, each batch copied
      through one destination pipeline. */
  method Copy(src: Source, dst: Destination, pattern: Option<string>, ghost fuel: nat)
    returns (events: seq<Event>)
    requires ScanEndsWithin(src, pattern, 0, fuel)
    modifies dst
    ensures events == CopyEvents(src, pattern, fuel)
    ensures dst.executed == old(dst.executed) + Executions(events)
  {
    var batches := ReadKeys(src, pattern, fuel);
    events := CopyBatches(src, dst, batches);
  }
}
