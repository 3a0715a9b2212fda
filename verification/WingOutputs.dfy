/** What a connection has been asked to put on the wire, in order. */
module WingOutputs {
  import opened Bytes

  /** `k` is the index of the request that the output belongs to: its final answer, an interim 100 response, or
      an error for bytes that never became a request. */
  datatype Output =
    | Answer(k: nat, data: Bytes)
    | Continue(k: nat)
    | Failure(k: nat, data: Bytes)

  const CONTINUE_RESPONSE: Bytes := Ascii("HTTP/1.1 100 Continue\r\n\r\n")

  function OutputBytes(o: Output): Bytes {
    match o
    case Answer(_, data) => data
    case Continue(_) => CONTINUE_RESPONSE
    case Failure(_, data) => data
  }

  function Render(outputs: seq<Output>): Bytes {
    if outputs == [] then [] else Render(outputs[..|outputs| - 1]) + OutputBytes(outputs[|outputs| - 1])
  }

  /** The number of requests answered. */
  function Answers(outputs: seq<Output>): nat {
    if outputs == [] then 0
    else Answers(outputs[..|outputs| - 1]) + (if outputs[|outputs| - 1].Answer? then 1 else 0)
  }

  /** Outputs belong to requests in request order: everything for request k comes after the answers to the
      requests before it, and before or at its own answer. */
  ghost predicate InOrder(outputs: seq<Output>) {
    forall i :: 0 <= i < |outputs| ==> outputs[i].k == Answers(outputs[..i])
  }

  /** The last output is an answer without bytes. */
  predicate EndsEmptily(outputs: seq<Output>) {
    outputs != [] && outputs[|outputs| - 1].Answer? && outputs[|outputs| - 1].data == []
  }

  ghost predicate HasFailure(outputs: seq<Output>) {
    exists i :: 0 <= i < |outputs| && outputs[i].Failure?
  }

  lemma EvidenceGrows(outputs: seq<Output>, o: Output)
    ensures HasFailure(outputs) || o.Failure? <==> HasFailure(outputs + [o])
  {
    var all := outputs + [o];
    assert all[|outputs|] == o;
    assert forall i :: 0 <= i < |outputs| ==> all[i] == outputs[i];
  }

  lemma Append(outputs: seq<Output>, o: Output)
    ensures Render(outputs + [o]) == Render(outputs) + OutputBytes(o)
    ensures Answers(outputs + [o]) == Answers(outputs) + (if o.Answer? then 1 else 0)
    ensures InOrder(outputs) && o.k == Answers(outputs) ==> InOrder(outputs + [o])
  {
    var all := outputs + [o];
    assert all[..|all| - 1] == outputs;
    if InOrder(outputs) && o.k == Answers(outputs) {
      forall i | 0 <= i < |all| ensures all[i].k == Answers(all[..i]) {
        assert all[..i] == outputs[..i];
        if i == |outputs| {
          assert outputs[..i] == outputs;
        }
      }
    }
  }

  /** The answers alone, as (request index, data). */
  function AnswerList(outputs: seq<Output>): (r: seq<Bytes>)
    ensures |r| == Answers(outputs)
  {
    if outputs == [] then []
    else AnswerList(outputs[..|outputs| - 1])
         + (if outputs[|outputs| - 1].Answer? then [outputs[|outputs| - 1].data] else [])
  }

  /** In an ordered list the j-th answer is the answer to request j. */
  lemma {:induction false} AnswersAreOrdered(outputs: seq<Output>, i: nat)
    requires InOrder(outputs) && i < |outputs| && outputs[i].Answer?
    ensures outputs[i].k < Answers(outputs)
    ensures AnswerList(outputs)[outputs[i].k] == outputs[i].data
  {
    var last := |outputs| - 1;
    var front := outputs[..last];
    forall j | 0 <= j < |front| ensures front[j].k == Answers(front[..j]) {
      assert front[..j] == outputs[..j];
    }
    if i < last {
      AnswersAreOrdered(front, i);
    } else {
      assert outputs[..i] == front;
    }
  }

  /** Every element of the list is some answer among the outputs, counted for that request. */
  lemma {:induction false} AnswerAt(outputs: seq<Output>, j: nat) returns (i: nat)
    requires InOrder(outputs) && j < Answers(outputs)
    ensures i < |outputs| && outputs[i].Answer? && outputs[i].k == j && outputs[i].data == AnswerList(outputs)[j]
  {
    var last := |outputs| - 1;
    var front := outputs[..last];
    if outputs[last].Answer? && j == Answers(front) {
      i := last;
    } else {
      assert InOrder(front) by {
        forall m | 0 <= m < |front| ensures front[m].k == Answers(front[..m]) {
          assert front[..m] == outputs[..m];
        }
      }
      i := AnswerAt(front, j);
    }
  }

  function Joined(answers: seq<Bytes>): Bytes {
    if answers == [] then [] else Joined(answers[..|answers| - 1]) + answers[|answers| - 1]
  }

  /** Without errors and interim responses, the outputs are the answers one after the other. */
  lemma {:induction false} RenderIsJoined(outputs: seq<Output>)
    requires forall i :: 0 <= i < |outputs| ==> outputs[i].Answer?
    ensures Render(outputs) == Joined(AnswerList(outputs))
  {
    if outputs != [] {
      var last := |outputs| - 1;
      RenderIsJoined(outputs[..last]);
      assert AnswerList(outputs)[..last] == AnswerList(outputs[..last]) by {
        OneEach(outputs);
        OneEach(outputs[..last]);
      }
    }
  }

  lemma {:induction false} OneEach(outputs: seq<Output>)
    requires forall i :: 0 <= i < |outputs| ==> outputs[i].Answer?
    ensures Answers(outputs) == |outputs|
  {
    if outputs != [] {
      OneEach(outputs[..|outputs| - 1]);
    }
  }
}
