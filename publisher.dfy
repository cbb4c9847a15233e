/** Batch construction and the publish loop (dec/publisher.py): the
    in-memory pipeline Pipe, recursive_pipeline, create_pipeline and the
    cycle loop of main. */
module Publisher {
  import opened Events
  import opened OrderedDict

  /** Cycles main runs, events per batch, and the channel it publishes on. */
  const CYCLES: nat := 10
  const BATCH_SIZE: nat := 100
  const CHANNEL: string := "events"

  /** The string-valued event fields that `event_id_key` may name. */
  datatype Field = Clip | Country | EventId | PublisherId

  /** `event[event_id_key]`. */
  function FieldValue(e: Event, f: Field): string {
    match f
    case Clip => e.clip
    case Country => e.country
    case EventId => e.eventId
    case PublisherId => e.publisherId
  }

  /** The write `pipe.set(event[key], json.dumps(event))`, with `serialize`
      standing for json.dumps. */
  function EventWrite(e: Event, key: Field, serialize: Event -> string): Write {
    Write(FieldValue(e, key), serialize(e))
  }

  /** The writes made for creator calls number start, ..., start + count - 1;
      `creator(i)` is the event the i-th call returns. */
  function Writes(creator: nat -> Event, start: nat, count: nat, key: Field, serialize: Event -> string): seq<Write> {
    seq(count, i requires 0 <= i < count => EventWrite(creator(start + i), key, serialize))
  }

  /** One more creator call appends one write. */
  lemma WritesStep(creator: nat -> Event, start: nat, count: nat, key: Field, serialize: Event -> string)
    ensures Writes(creator, start, count + 1, key, serialize) ==
      Writes(creator, start, count, key, serialize) + [EventWrite(creator(start + count), key, serialize)]
  {
  }

  /** The in-memory stand-in for a Redis pipeline. `order` and `diz`
      together are the Python dict `diz`: its keys in insertion order and
      its key-to-value map. */
  class Pipe {
    var order: seq<string>
    var diz: map<string, string>

    function Contents(): Dict
      reads this
    {
      Dict(order, diz)
    }

    ghost predicate Valid()
      reads this
    {
      OrderedDict.Valid(Contents())
    }

    /** A fresh pipe holds an empty dict. */
    constructor ()
      ensures Valid() && Contents() == EMPTY
    {
      order := [];
      diz := map[];
    }

    /** `set(key, value)`: records the write and returns this same pipe. */
    method Set(key: string, value: string) returns (p: Pipe)
      requires Valid()
      modifies this
      ensures p == this && Valid()
      ensures Contents() == Put(old(Contents()), key, value)
      ensures diz == old(diz)[key := value]
    {
      if key !in diz {
        order := order + [key];
      }
      diz := diz[key := value];
      p := this;
    }

    /** `list(diz.values())`: the value of each key, in the keys'
        insertion order, one per entry. */
    function Values(): (vs: seq<string>)
      reads this
      requires Valid()
      ensures |vs| == |order| == |diz|
      ensures forall i :: 0 <= i < |vs| ==> order[i] in diz && vs[i] == diz[order[i]]
    {
      ValuesListed(Contents());
      OrderedDict.Values(Contents())
    }
  }

  /** recursive_pipeline(pipe, creator, pipeline_length, event_id_key),
      with its tail recursion run as a loop. `start` is the number of
      creator calls made before this one. Each round calls the creator once
      and sets one key, and the round with pipeline_length == 1 returns. */
  method RecursivePipeline(pipe: Pipe, creator: nat -> Event, start: nat, pipelineLength: int,
                           eventIdKey: Field, serialize: Event -> string)
    returns (finalPipe: Pipe)
    requires pipe.Valid()
    requires pipelineLength >= 1
    modifies pipe
    ensures finalPipe == pipe && pipe.Valid()
    ensures pipe.Contents() == PutAll(old(pipe.Contents()), Writes(creator, start, pipelineLength, eventIdKey, serialize))
  {
    finalPipe := pipe;
    ghost var initial := pipe.Contents();
    var remaining := pipelineLength;
    var calls: nat := 0;
    while true
      invariant 1 <= remaining && calls + remaining == pipelineLength
      invariant finalPipe == pipe && pipe.Valid()
      invariant pipe.Contents() == PutAll(initial, Writes(creator, start, calls, eventIdKey, serialize))
      decreases remaining
    {
      var fakeEvent := creator(start + calls);
      WritesStep(creator, start, calls, eventIdKey, serialize);
      PutAllSnoc(initial, Writes(creator, start, calls, eventIdKey, serialize), EventWrite(fakeEvent, eventIdKey, serialize));
      finalPipe := finalPipe.Set(FieldValue(fakeEvent, eventIdKey), serialize(fakeEvent));
      calls := calls + 1;
      if remaining == 1 {
        return;
      }
      remaining := remaining - 1;
    }
  }

  /** The dict built by `count` creator calls from an empty pipe. */
  function Batch(creator: nat -> Event, start: nat, count: nat, key: Field, serialize: Event -> string): Dict {
    PutAll(EMPTY, Writes(creator, start, count, key, serialize))
  }

  /** After n creator calls on an empty pipe, the keys of the batch are
      exactly the n generated keys. */
  lemma BatchKeys(creator: nat -> Event, start: nat, n: nat, key: Field, serialize: Event -> string)
    ensures OrderedDict.Valid(Batch(creator, start, n, key, serialize))
    ensures forall k :: k in Batch(creator, start, n, key, serialize).entries <==>
      exists i :: 0 <= i < n && Writes(creator, start, n, key, serialize)[i].key == k
  {
    var w := Writes(creator, start, n, key, serialize);
    PutAllValid(EMPTY, w);
    PutAllKeys(EMPTY, w);
    assert forall i :: 0 <= i < n ==> Keys(w)[i] == w[i].key;
  }

  /** Each key holds the serialization of the last event generated with
      that key: later sets overwrite earlier ones. */
  lemma BatchLastEvent(creator: nat -> Event, start: nat, n: nat, key: Field, serialize: Event -> string, i: nat)
    requires i < n
    requires forall j :: i < j < n ==>
      Writes(creator, start, n, key, serialize)[j].key != FieldValue(creator(start + i), key)
    ensures FieldValue(creator(start + i), key) in Batch(creator, start, n, key, serialize).entries
    ensures Batch(creator, start, n, key, serialize).entries[FieldValue(creator(start + i), key)] == serialize(creator(start + i))
  {
    var w := Writes(creator, start, n, key, serialize);
    assert w[i] == EventWrite(creator(start + i), key, serialize);
    PutAllLastWrite(EMPTY, w, i);
  }

  /** A batch of n calls has at most n entries, and exactly n when the n
      generated keys are pairwise distinct. */
  lemma BatchSize(creator: nat -> Event, start: nat, n: nat, key: Field, serialize: Event -> string)
    ensures |Batch(creator, start, n, key, serialize).entries| <= n
    ensures |Batch(creator, start, n, key, serialize).entries| == n <==>
      Distinct(Keys(Writes(creator, start, n, key, serialize)))
  {
    PutAllSize(Writes(creator, start, n, key, serialize));
  }

  /** What create_pipeline returns, or the failure of its assert. */
  datatype Created = Created(pipe: Pipe) | AssertionFailed

  /** create_pipeline. A negative length fails its assert before anything
      is created or generated. Otherwise a fresh pipe is filled with
      pipeline_length events; length 0 gives the empty pipe (see the
      as-written recursion below for what the source does instead). */
  method CreatePipeline(creator: nat -> Event, pipelineLength: int, eventIdKey: Field, serialize: Event -> string)
    returns (r: Created)
    ensures r.AssertionFailed? <==> pipelineLength < 0
    ensures r.Created? ==>
      fresh(r.pipe) && r.pipe.Valid() && r.pipe.Contents() == Batch(creator, 0, pipelineLength, eventIdKey, serialize)
  {
    if pipelineLength < 0 {
      return AssertionFailed;
    }
    var initialPipe := new Pipe();
    if pipelineLength == 0 {
      return Created(initialPipe);
    }
    var finalPipe := RecursivePipeline(initialPipe, creator, 0, pipelineLength, eventIdKey, serialize);
    r := Created(finalPipe);
  }

  /** How the recursion of recursive_pipeline, as written, ends when the
      interpreter allows at most `depth` nested calls: it returns after
      some number of creator calls, or the depth runs out. */
  datatype Unwinding = Returned(calls: nat) | DepthExceeded

  /** The recursion, as written, returns exactly when
      1 <= pipeline_length <= depth, after pipeline_length creator calls.
      Every length below 1, including the 0 that create_pipeline's assert
      lets through, never reaches the base case. */
  function RecursionOutcome(pipelineLength: int, depth: nat): (u: Unwinding)
    ensures u.Returned? <==> 1 <= pipelineLength <= depth
    ensures u.Returned? ==> u.calls == pipelineLength
    decreases depth
  {
    if depth == 0 then DepthExceeded
    else if pipelineLength == 1 then Returned(1)
    else match RecursionOutcome(pipelineLength - 1, depth - 1)
      case Returned(c) => Returned(c + 1)
      case DepthExceeded => DepthExceeded
  }

  /** The concrete case: pipeline_length 0 exhausts any depth. */
  lemma ZeroLengthNeverReturns(depth: nat)
    ensures RecursionOutcome(0, depth) == DepthExceeded
  {
  }

  /** One message on the broker: `rc.publish(channel, payload)`. */
  datatype Message = Message(channel: string, payload: seq<string>)

  /** The writes of cycle c of main: BATCH_SIZE events keyed by event id,
      made by creator calls c * BATCH_SIZE onwards. */
  function CycleWrites(creator: nat -> Event, serialize: Event -> string, c: nat): seq<Write> {
    Writes(creator, c * BATCH_SIZE, BATCH_SIZE, EventId, serialize)
  }

  /** The payload of cycle c: the values of the dict built by its writes. */
  function CyclePayload(creator: nat -> Event, serialize: Event -> string, c: nat): seq<string> {
    PutAllValid(EMPTY, CycleWrites(creator, serialize, c));
    OrderedDict.Values(PutAll(EMPTY, CycleWrites(creator, serialize, c)))
  }

  /** A cycle publishes at most BATCH_SIZE values, exactly BATCH_SIZE when
      the cycle's event ids are pairwise distinct, and among them the
      serialization of every event whose id is not generated again later in
      the cycle. */
  lemma CyclePayloadFacts(creator: nat -> Event, serialize: Event -> string, c: nat)
    ensures |CycleWrites(creator, serialize, c)| == BATCH_SIZE
    ensures forall i :: 0 <= i < BATCH_SIZE ==>
      CycleWrites(creator, serialize, c)[i] == Write(creator(c * BATCH_SIZE + i).eventId, serialize(creator(c * BATCH_SIZE + i)))
    ensures |CyclePayload(creator, serialize, c)| <= BATCH_SIZE
    ensures |CyclePayload(creator, serialize, c)| == BATCH_SIZE <==> Distinct(Keys(CycleWrites(creator, serialize, c)))
    ensures forall i :: 0 <= i < BATCH_SIZE && LastWithKey(CycleWrites(creator, serialize, c), i) ==>
      CycleWrites(creator, serialize, c)[i].value in CyclePayload(creator, serialize, c)
  {
    var w := CycleWrites(creator, serialize, c);
    forall i | 0 <= i < BATCH_SIZE
      ensures w[i] == Write(creator(c * BATCH_SIZE + i).eventId, serialize(creator(c * BATCH_SIZE + i)))
    {
      assert w[i] == EventWrite(creator(c * BATCH_SIZE + i), EventId, serialize);
    }
    ValuesOfWrites(w);
  }

  lemma PayloadBound(creator: nat -> Event, serialize: Event -> string, c: nat)
    ensures |CyclePayload(creator, serialize, c)| <= BATCH_SIZE
  {
    CyclePayloadFacts(creator, serialize, c);
  }

  /** One cycle of main's loop: build a fresh pipe of BATCH_SIZE events
      keyed by event id, from creator call c * BATCH_SIZE onwards, and list
      its values as the message to publish on CHANNEL. */
  method Cycle(creator: nat -> Event, serialize: Event -> string, c: nat) returns (m: Message)
    ensures m == Message(CHANNEL, CyclePayload(creator, serialize, c))
  {
    var pipe := new Pipe();
    var finalPipe := RecursivePipeline(pipe, creator, c * BATCH_SIZE, BATCH_SIZE, EventId, serialize);
    assert finalPipe.Contents() == PutAll(EMPTY, CycleWrites(creator, serialize, c));
    var eventsToSend := finalPipe.Values();
    m := Message(CHANNEL, eventsToSend);
  }

  /** The cycle loop of main: CYCLES cycles, each publishing one message.
      The returned sequence is the messages published, in order. */
  method Run(creator: nat -> Event, serialize: Event -> string) returns (published: seq<Message>)
    ensures |published| == CYCLES
    ensures forall c :: 0 <= c < CYCLES ==> published[c] == Message(CHANNEL, CyclePayload(creator, serialize, c))
    ensures forall c :: 0 <= c < CYCLES ==> |published[c].payload| <= BATCH_SIZE
  {
    published := [];
    var n := 0;
    while n < CYCLES
      invariant 0 <= n <= CYCLES && |published| == n
      invariant forall c :: 0 <= c < n ==> published[c] == Message(CHANNEL, CyclePayload(creator, serialize, c))
      invariant forall c :: 0 <= c < n ==> |published[c].payload| <= BATCH_SIZE
    {
      var message := Cycle(creator, serialize, n);
      PayloadBound(creator, serialize, n);
      published := published + [message];
      n := n + 1;
    }
  }
}
