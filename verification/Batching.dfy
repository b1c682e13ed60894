/** The batch queue: requests are grouped until a batch is full or its wait is over, the engine
    runs on each batch, and every caller gets its answer. */
module Batching {
  import opened Arith
  import opened Wrappers

  datatype EngineError = Internal(message: string)

  type Reply = Result<string, EngineError>

  /** `slot` names the one-shot channel on which the caller waits. */
  datatype BatchRequest = BatchRequest(slot: nat, prompt: string, maxTokens: nat)

  /** What the loop sees next; the end of the sequence is the closing of the channel. A wait
      that ends while no batch is open belongs to no timer and is passed over. */
  datatype Signal = Arrived(request: BatchRequest) | WaitOver

  /** The engine's result for a call; calls are numbered, so equal batches may differ. */
  type Engine = (nat, seq<string>, nat) -> Result<seq<string>, string>

  datatype Answer = Answer(slot: nat, reply: Reply)

  // ---------------------------------------------------------------- forming batches

  function Received(feed: seq<Signal>): seq<BatchRequest> {
    if feed == [] then []
    else (if feed[0].Arrived? then [feed[0].request] else []) + Received(feed[1..])
  }

  /** The batch that is open, filled from the feed, and what remains of the feed. */
  function Fill(batch: seq<BatchRequest>, feed: seq<Signal>, max: nat): (seq<BatchRequest>, seq<Signal>)
    decreases |feed|
  {
    if |batch| >= max || feed == [] then (batch, feed)
    else
      match feed[0]
      case WaitOver => (batch, feed[1..])
      case Arrived(request) => Fill(batch + [request], feed[1..], max)
  }

  lemma {:induction false} FillShrinks(batch: seq<BatchRequest>, feed: seq<Signal>, max: nat)
    ensures |Fill(batch, feed, max).1| <= |feed|
    decreases |feed|
  {
    if |batch| < max && feed != [] && feed[0].Arrived? {
      FillShrinks(batch + [feed[0].request], feed[1..], max);
    }
  }

  function Batches(feed: seq<Signal>, max: nat): seq<seq<BatchRequest>>
    decreases |feed|
  {
    if feed == [] then []
    else if feed[0].WaitOver? then Batches(feed[1..], max)
    else
      var (batch, rest) := Fill([feed[0].request], feed[1..], max);
      FillShrinks([feed[0].request], feed[1..], max);
      [batch] + Batches(rest, max)
  }

  function Flatten(batches: seq<seq<BatchRequest>>): seq<BatchRequest> {
    if batches == [] then [] else batches[0] + Flatten(batches[1..])
  }

  function Limit(batch: seq<BatchRequest>): nat {
    if batch == [] then 0
    else
      var before, last := Limit(batch[..|batch| - 1]), batch[|batch| - 1].maxTokens;
      if before > last then before else last
  }

  function Prompts(batch: seq<BatchRequest>): seq<string> {
    seq(|batch|, j requires 0 <= j < |batch| => batch[j].prompt)
  }

  /** What the caller at a position of a batch finds in its channel. */
  function ReplyAt(result: Result<seq<string>, string>, j: nat): Reply {
    match result
    case Ok(outputs) => if j < |outputs| then Ok(outputs[j]) else Err(Internal("Response channel dropped"))
    case Err(message) => Err(Internal(message))
  }

  function AnswersOf(batch: seq<BatchRequest>, result: Result<seq<string>, string>): (answers: seq<Answer>)
    ensures |answers| == |batch|
  {
    seq(|batch|, j requires 0 <= j < |batch| => Answer(batch[j].slot, ReplyAt(result, j)))
  }

  function Ask(engine: Engine, call: nat, batch: seq<BatchRequest>): Result<seq<string>, string> {
    engine(call, Prompts(batch), Limit(batch))
  }

  function AllAnswers(engine: Engine, call: nat, batches: seq<seq<BatchRequest>>): seq<Answer>
    decreases |batches|
  {
    if batches == [] then []
    else AnswersOf(batches[0], Ask(engine, call, batches[0])) + AllAnswers(engine, call + 1, batches[1..])
  }

  // ---------------------------------------------------------------- the loop

  /** Hand the results out: each request takes one output while there is one, and the channels
      of the others are dropped; on an error each request gets the error. */
  method Distribute(batch: seq<BatchRequest>, result: Result<seq<string>, string>) returns (answers: seq<Answer>)
    ensures answers == AnswersOf(batch, result)
  {
    answers := [];
    match result {
      case Ok(outputs) =>
        var i := 0;
        while i < |batch| && i < |outputs|
          invariant i <= |batch| && i <= |outputs|
          invariant answers == AnswersOf(batch, result)[..i]
        {
          answers := answers + [Answer(batch[i].slot, Ok(outputs[i]))];
          i := i + 1;
        }
        while i < |batch|
          invariant i <= |batch| && (i < |batch| ==> i >= |outputs|)
          invariant answers == AnswersOf(batch, result)[..i]
        {
          answers := answers + [Answer(batch[i].slot, Err(Internal("Response channel dropped")))];
          i := i + 1;
        }
      case Err(message) =>
        for i := 0 to |batch|
          invariant answers == AnswersOf(batch, result)[..i]
        {
          answers := answers + [Answer(batch[i].slot, Err(Internal(message)))];
        }
    }
  }

  lemma LimitOfAppended(batch: seq<BatchRequest>, request: BatchRequest)
    ensures Limit(batch + [request])
         == if Limit(batch) > request.maxTokens then Limit(batch) else request.maxTokens
  {
    assert (batch + [request])[..|batch|] == batch;
  }

  lemma AppendAnswers(done: seq<Answer>, now: seq<Answer>, rest: seq<Answer>)
    ensures done + (now + rest) == done + now + rest
  {
  }

  method Serve(feed: seq<Signal>, maxBatchSize: nat, engine: Engine) returns (answers: seq<Answer>)
    ensures answers == AllAnswers(engine, 0, Batches(feed, maxBatchSize))
  {
    hide AllAnswers, Limit, AnswersOf, Prompts;
    answers := [];
    var i, call := 0, 0;
    assert feed[0..] == feed;
    while i < |feed|
      invariant 0 <= i <= |feed|
      invariant AllAnswers(engine, 0, Batches(feed, maxBatchSize))
             == answers + AllAnswers(engine, call, Batches(feed[i..], maxBatchSize))
    {
      assert feed[i..][1..] == feed[i + 1..];
      if feed[i].WaitOver? {
        i := i + 1;
        continue;
      }
      ghost var start := i;
      var batch := [feed[i].request];
      var limit := if 0 > feed[i].request.maxTokens then 0 else feed[i].request.maxTokens;
      LimitOfOne(feed[i].request);
      i := i + 1;
      while |batch| < maxBatchSize && i < |feed|
        invariant start < i <= |feed| && limit == Limit(batch)
        invariant Fill([feed[start].request], feed[start + 1..], maxBatchSize)
               == Fill(batch, feed[i..], maxBatchSize)
      {
        assert feed[i..][1..] == feed[i + 1..];
        if feed[i].WaitOver? {
          break;
        }
        LimitOfAppended(batch, feed[i].request);
        limit := if limit > feed[i].request.maxTokens then limit else feed[i].request.maxTokens;
        batch := batch + [feed[i].request];
        i := i + 1;
      }
      if |batch| < maxBatchSize && i < |feed| {
        i := i + 1;
      }
      assert Batches(feed[start..], maxBatchSize) == [batch] + Batches(feed[i..], maxBatchSize);
      var result := engine(call, Prompts(batch), limit);
      var now := Distribute(batch, result);
      AnswersUnfold(engine, call, batch, Batches(feed[i..], maxBatchSize));
      AppendAnswers(answers, now, AllAnswers(engine, call + 1, Batches(feed[i..], maxBatchSize)));
      answers := answers + now;
      call := call + 1;
    }
    NoAnswers(engine, call);
  }

  lemma LimitOfOne(request: BatchRequest)
    ensures Limit([request]) == request.maxTokens
  {
  }

  lemma AnswersUnfold(engine: Engine, call: nat, batch: seq<BatchRequest>, rest: seq<seq<BatchRequest>>)
    ensures AllAnswers(engine, call, [batch] + rest)
         == AnswersOf(batch, Ask(engine, call, batch)) + AllAnswers(engine, call + 1, rest)
  {
    assert ([batch] + rest)[1..] == rest;
  }

  lemma NoAnswers(engine: Engine, call: nat)
    ensures AllAnswers(engine, call, []) == []
  {
  }

  // ---------------------------------------------------------------- what the batches are

  lemma {:induction false} FillTakesInOrder(batch: seq<BatchRequest>, feed: seq<Signal>, max: nat)
    requires |batch| <= AtLeastOne(max)
    ensures var (filled, rest) := Fill(batch, feed, max);
            && filled + Received(rest) == batch + Received(feed)
            && |batch| <= |filled| <= AtLeastOne(max)
            && (WaitOver !in feed ==> WaitOver !in rest && (|filled| >= max || rest == []))
    decreases |feed|
  {
    if |batch| < max && feed != [] {
      if feed[0].Arrived? {
        FillTakesInOrder(batch + [feed[0].request], feed[1..], max);
        assert batch + ([feed[0].request] + Received(feed[1..])) == batch + [feed[0].request] + Received(feed[1..]);
      } else {
        assert [] + Received(feed[1..]) == Received(feed[1..]);
      }
    }
  }

  /** The batches are the received requests cut in order, each of at least one request and at
      most the larger of one and the maximum. */
  lemma {:induction false} BatchesPartition(feed: seq<Signal>, max: nat)
    ensures Flatten(Batches(feed, max)) == Received(feed)
    ensures forall k :: 0 <= k < |Batches(feed, max)| ==> 1 <= |Batches(feed, max)[k]| <= AtLeastOne(max)
    decreases |feed|
  {
    if feed != [] {
      if feed[0].WaitOver? {
        BatchesPartition(feed[1..], max);
        assert [] + Received(feed[1..]) == Received(feed[1..]);
      } else {
        var first := [feed[0].request];
        FillShrinks(first, feed[1..], max);
        FillTakesInOrder(first, feed[1..], max);
        var (batch, rest) := Fill(first, feed[1..], max);
        BatchesPartition(rest, max);
        assert ([batch] + Batches(rest, max))[1..] == Batches(rest, max);
      }
    }
  }

  /** A batch is cut short only by the end of a wait or of the queue: without waits ending
      as few batches are formed as the maximum allows. */
  lemma {:induction false} WithoutWaitsBatchesAreFull(feed: seq<Signal>, max: nat)
    requires WaitOver !in feed
    ensures |Batches(feed, max)| == CeilDiv(|Received(feed)|, AtLeastOne(max))
    decreases |feed|
  {
    if feed != [] {
      var first := [feed[0].request];
      FillShrinks(first, feed[1..], max);
      FillTakesInOrder(first, feed[1..], max);
      var (batch, rest) := Fill(first, feed[1..], max);
      WithoutWaitsBatchesAreFull(rest, max);
      assert |batch| + |Received(rest)| == |batch + Received(rest)| == |Received(feed)|;
      if |batch| == AtLeastOne(max) {
        DivAddOne(|Received(rest)| + AtLeastOne(max) - 1, AtLeastOne(max));
      } else {
        assert rest == [];
        SmallBatch(|batch|, AtLeastOne(max));
      }
    }
  }

  lemma SmallBatch(n: nat, cap: nat)
    requires 0 < n <= cap
    ensures CeilDiv(n, cap) == 1
    ensures CeilDiv(0, cap) == 0
  {
    QuotientUnique(n + cap - 1, cap, 1, n - 1);
    QuotientUnique(cap - 1, cap, 0, cap - 1);
  }

  /** The limit passed to the engine is the largest one asked for in the batch. */
  lemma {:induction false} LimitIsTheMaximum(batch: seq<BatchRequest>)
    requires batch != []
    ensures forall j :: 0 <= j < |batch| ==> batch[j].maxTokens <= Limit(batch)
    ensures exists j :: 0 <= j < |batch| && batch[j].maxTokens == Limit(batch)
    decreases |batch|
  {
    var n := |batch| - 1;
    var before := batch[..n];
    if n == 0 {
      assert batch[0].maxTokens == Limit(batch);
    } else {
      LimitIsTheMaximum(before);
      var j :| 0 <= j < n && before[j].maxTokens == Limit(before);
      assert batch[if Limit(before) > batch[n].maxTokens then j else n].maxTokens == Limit(batch);
      forall i | 0 <= i < |batch| ensures batch[i].maxTokens <= Limit(batch) {
        if i < n { assert before[i] == batch[i]; }
      }
    }
  }

  // ---------------------------------------------------------------- what the callers get

  /** The batch and the position in it of a flattened index. */
  function Locate(batches: seq<seq<BatchRequest>>, i: nat): (nat, nat)
    requires i < |Flatten(batches)|
  {
    if i < |batches[0]| then (0, i)
    else
      var (k, j) := Locate(batches[1..], i - |batches[0]|);
      (k + 1, j)
  }

  lemma {:induction false} AnswersInOrder(engine: Engine, call: nat, batches: seq<seq<BatchRequest>>)
    ensures |AllAnswers(engine, call, batches)| == |Flatten(batches)|
    decreases |batches|
  {
    if batches != [] {
      AnswersInOrder(engine, call + 1, batches[1..]);
    }
  }

  lemma {:induction false} AnswerAt(engine: Engine, call: nat, batches: seq<seq<BatchRequest>>, i: nat)
    requires i < |Flatten(batches)|
    ensures var (k, j) := Locate(batches, i);
            && k < |batches| && j < |batches[k]|
            && batches[k][j] == Flatten(batches)[i]
            && |AllAnswers(engine, call, batches)| == |Flatten(batches)|
            && AllAnswers(engine, call, batches)[i]
               == Answer(batches[k][j].slot, ReplyAt(Ask(engine, call + k, batches[k]), j))
    decreases |batches|
  {
    hide Ask;
    AnswersInOrder(engine, call, batches);
    if i >= |batches[0]| {
      AnswerAt(engine, call + 1, batches[1..], i - |batches[0]|);
    }
  }

  /** Every request gets exactly one answer, in the order of arrival and on its own channel: the
      engine is called once for its batch, with the prompts of the batch in order and the batch's
      limit, and the answer is the output at the request's own position when the engine gave one,
      the engine's error when the batch failed, and a dropped channel when outputs ran out. */
  lemma OneAnswerEach(feed: seq<Signal>, max: nat, engine: Engine, i: nat)
    requires i < |Received(feed)|
    ensures var batches := Batches(feed, max);
            var answers := AllAnswers(engine, 0, batches);
            && |answers| == |Received(feed)|
            && answers[i].slot == Received(feed)[i].slot
            && i < |Flatten(batches)|
            && var (k, j) := Locate(batches, i);
               && k < |batches| && j < |batches[k]|
               && batches[k][j] == Received(feed)[i]
               && var prompts := seq(|batches[k]|, n requires 0 <= n < |batches[k]| => batches[k][n].prompt);
                  match engine(k, prompts, Limit(batches[k]))
                  case Ok(outputs) =>
                    answers[i].reply == if j < |outputs| then Ok(outputs[j])
                                        else Err(Internal("Response channel dropped"))
                  case Err(message) => answers[i].reply == Err(Internal(message))
  {
    hide Batches, AllAnswers, Limit, Prompts;
    BatchesPartition(feed, max);
    AnswerAt(engine, 0, Batches(feed, max), i);
    var batches := Batches(feed, max);
    var batch := batches[Locate(batches, i).0];
    PromptsInOrder(batch);
    assert Prompts(batch) == seq(|batch|, n requires 0 <= n < |batch| => batch[n].prompt);
  }

  lemma PromptsInOrder(batch: seq<BatchRequest>)
    ensures |Prompts(batch)| == |batch| && forall n :: 0 <= n < |batch| ==> Prompts(batch)[n] == batch[n].prompt
  {
  }
}
