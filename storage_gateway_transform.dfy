/**
 * Amazon.StorageGateway.Model.Internal.MarshallTransformations.AddUploadBufferResultUnmarshaller:
 * the JSON decoder of the AddUploadBuffer result, its XML entry point that
 * always throws, and its lazy singleton.
 *
 * The string decoder (StringUnmarshaller) is not part of this model; it is a
 * parameter `nested` of which only `MovesForward` is known. It returns a
 * nullable string, which the decoder stores as it is, null included.
 */
module StorageGatewayTransform {
  import opened Wrappers
  import opened Transform

  /** AddUploadBufferResult: one nullable string field. */
  datatype AddUploadBufferResult = AddUploadBufferResult(gatewayARN: Option<string>)

  /** The exception the XML entry point throws. */
  datatype UnmarshallError = NotImplementedException

  const GatewayARNName: string := "GatewayARN"

  /** A key token at exactly the target depth: the only tokens examined. */
  predicate IsTargetKey(t: Token, targetDepth: nat)
  {
    t.kind == Key && t.depth == targetDepth
  }

  /** The token the name test is made on carries GatewayARN at the target depth. */
  predicate NamesGatewayARN(t: Token, targetDepth: nat)
  {
    t.name == GatewayARNName && t.depth == targetDepth
  }

  /** An end token at or above the depth decoding started at. */
  predicate ClosesJsonResult(t: Token, originalDepth: nat)
  {
    t.kind == EndElement && t.depth <= originalDepth
  }

  /** Where the cursor is after a key was read at `pos` and two more `Read`s
      were made, whatever they returned. */
  function AfterKey(ts: seq<Token>, pos: nat): (p: nat)
    requires pos < |ts|
    ensures pos < p <= |ts|
    ensures p == if pos + 3 <= |ts| then pos + 3 else |ts|
  {
    ReadPos(ts, ReadPos(ts, pos + 1))
  }

  /**
   * The rest of the `while (context.Read())` loop, run from position `pos`
   * with `result` built so far: the result it returns and where it leaves
   * the cursor.
   */
  function JsonLoop(ts: seq<Token>, pos: nat, originalDepth: nat, targetDepth: nat,
                    nested: (seq<Token>, nat) -> Decoded<Option<string>>,
                    result: AddUploadBufferResult): (r: Decoded<AddUploadBufferResult>)
    requires pos <= |ts| && MovesForward(nested)
    ensures pos <= r.pos <= |ts|
    ensures pos < |ts| ==> pos < r.pos
    decreases |ts| - pos
  {
    if pos == |ts| then Decoded(result, pos)
    else
      var t := ts[pos];
      if IsTargetKey(t, targetDepth) then
        var p := AfterKey(ts, pos);
        if NamesGatewayARN(ts[p - 1], targetDepth) then
          var d := nested(ts, p);
          JsonLoop(ts, d.pos, originalDepth, targetDepth, nested, result.(gatewayARN := d.value))
        else
          JsonLoop(ts, p, originalDepth, targetDepth, nested, result)
      else if ClosesJsonResult(t, originalDepth) then
        Decoded(result, pos + 1)
      else
        JsonLoop(ts, pos + 1, originalDepth, targetDepth, nested, result)
  }

  /** Only a key at the target depth can lead to an assignment: a stream
      without one leaves the result as it was. */
  lemma {:induction false} JsonNoTargetKeyKeepsResult(ts: seq<Token>, pos: nat, originalDepth: nat, targetDepth: nat,
                                                      nested: (seq<Token>, nat) -> Decoded<Option<string>>,
                                                      result: AddUploadBufferResult)
    requires pos <= |ts| && MovesForward(nested)
    requires forall i :: pos <= i < |ts| ==> !IsTargetKey(ts[i], targetDepth)
    ensures JsonLoop(ts, pos, originalDepth, targetDepth, nested, result).value == result
    decreases |ts| - pos
  {
    if pos < |ts| {
      assert !IsTargetKey(ts[pos], targetDepth);
      JsonNoTargetKeyKeepsResult(ts, pos + 1, originalDepth, targetDepth, nested, result);
    }
  }

  /** Keys of any other name are skipped: without a GatewayARN token at the
      target depth, GatewayARN keeps its value (null for a fresh result). */
  lemma {:induction false} JsonNoGatewayARNKeepsResult(ts: seq<Token>, pos: nat, originalDepth: nat, targetDepth: nat,
                                                       nested: (seq<Token>, nat) -> Decoded<Option<string>>,
                                                       result: AddUploadBufferResult)
    requires pos <= |ts| && MovesForward(nested)
    requires forall i :: pos <= i < |ts| ==> !NamesGatewayARN(ts[i], targetDepth)
    ensures JsonLoop(ts, pos, originalDepth, targetDepth, nested, result).value == result
    decreases |ts| - pos
  {
    if pos < |ts| {
      var t := ts[pos];
      if IsTargetKey(t, targetDepth) {
        var p := AfterKey(ts, pos);
        assert !NamesGatewayARN(ts[p - 1], targetDepth);
        JsonNoGatewayARNKeepsResult(ts, p, originalDepth, targetDepth, nested, result);
      } else {
        JsonNoGatewayARNKeepsResult(ts, pos + 1, originalDepth, targetDepth, nested, result);
      }
    }
  }

  /** The decoder returns either because the stream is exhausted or right
      after reading an end token at most as deep as where it started. */
  lemma {:induction false} JsonStopsAtBoundaryOrEnd(ts: seq<Token>, pos: nat, originalDepth: nat, targetDepth: nat,
                                                    nested: (seq<Token>, nat) -> Decoded<Option<string>>,
                                                    result: AddUploadBufferResult)
    requires pos <= |ts| && MovesForward(nested)
    ensures var r := JsonLoop(ts, pos, originalDepth, targetDepth, nested, result);
            r.pos == |ts| || (0 < r.pos && ClosesJsonResult(ts[r.pos - 1], originalDepth))
    decreases |ts| - pos
  {
    if pos < |ts| {
      var t := ts[pos];
      if IsTargetKey(t, targetDepth) {
        var p := AfterKey(ts, pos);
        if NamesGatewayARN(ts[p - 1], targetDepth) {
          var d := nested(ts, p);
          JsonStopsAtBoundaryOrEnd(ts, d.pos, originalDepth, targetDepth, nested, result.(gatewayARN := d.value));
        } else {
          JsonStopsAtBoundaryOrEnd(ts, p, originalDepth, targetDepth, nested, result);
        }
      } else if !ClosesJsonResult(t, originalDepth) {
        JsonStopsAtBoundaryOrEnd(ts, pos + 1, originalDepth, targetDepth, nested, result);
      }
    }
  }

  /** Conversely, the first such end token stops the decoder: when the
      tokens before it hold no key at the target depth, the decoder skips
      them, returns right after it and leaves the result as it was. */
  lemma {:induction false} JsonStopsAtFirstBoundary(ts: seq<Token>, pos: nat, j: nat, originalDepth: nat, targetDepth: nat,
                                                    nested: (seq<Token>, nat) -> Decoded<Option<string>>,
                                                    result: AddUploadBufferResult)
    requires pos <= j < |ts| && MovesForward(nested)
    requires ClosesJsonResult(ts[j], originalDepth)
    requires forall i :: pos <= i < j ==> !IsTargetKey(ts[i], targetDepth) && !ClosesJsonResult(ts[i], originalDepth)
    ensures JsonLoop(ts, pos, originalDepth, targetDepth, nested, result) == Decoded(result, j + 1)
    decreases j - pos
  {
    if pos < j {
      assert !IsTargetKey(ts[pos], targetDepth) && !ClosesJsonResult(ts[pos], originalDepth);
      JsonStopsAtFirstBoundary(ts, pos + 1, j, originalDepth, targetDepth, nested, result);
    }
  }

  /** Without such an end token the decoder reads the whole stream and
      returns what it has accumulated; running out of tokens is not an error. */
  lemma {:induction false} JsonNoBoundaryReadsAll(ts: seq<Token>, pos: nat, originalDepth: nat, targetDepth: nat,
                                                  nested: (seq<Token>, nat) -> Decoded<Option<string>>,
                                                  result: AddUploadBufferResult)
    requires pos <= |ts| && MovesForward(nested)
    requires forall i :: pos <= i < |ts| ==> !ClosesJsonResult(ts[i], originalDepth)
    ensures JsonLoop(ts, pos, originalDepth, targetDepth, nested, result).pos == |ts|
    decreases |ts| - pos
  {
    if pos < |ts| {
      var t := ts[pos];
      assert !ClosesJsonResult(t, originalDepth);
      if IsTargetKey(t, targetDepth) {
        var p := AfterKey(ts, pos);
        if NamesGatewayARN(ts[p - 1], targetDepth) {
          var d := nested(ts, p);
          JsonNoBoundaryReadsAll(ts, d.pos, originalDepth, targetDepth, nested, result.(gatewayARN := d.value));
        } else {
          JsonNoBoundaryReadsAll(ts, p, originalDepth, targetDepth, nested, result);
        }
      } else {
        JsonNoBoundaryReadsAll(ts, pos + 1, originalDepth, targetDepth, nested, result);
      }
    }
  }

  /** A GatewayARN key whose string decode is followed by no further
      GatewayARN token determines the result: the last match wins. */
  lemma JsonLastMatchWins(ts: seq<Token>, pos: nat, originalDepth: nat, targetDepth: nat,
                          nested: (seq<Token>, nat) -> Decoded<Option<string>>,
                          result: AddUploadBufferResult)
    requires pos < |ts| && MovesForward(nested)
    requires IsTargetKey(ts[pos], targetDepth)
    requires NamesGatewayARN(ts[AfterKey(ts, pos) - 1], targetDepth)
    requires forall i :: nested(ts, AfterKey(ts, pos)).pos <= i < |ts| ==> !NamesGatewayARN(ts[i], targetDepth)
    ensures JsonLoop(ts, pos, originalDepth, targetDepth, nested, result).value
            == AddUploadBufferResult(nested(ts, AfterKey(ts, pos)).value)
  {
    var d := nested(ts, AfterKey(ts, pos));
    JsonNoGatewayARNKeepsResult(ts, d.pos, originalDepth, targetDepth, nested, AddUploadBufferResult(d.value));
  }

  class AddUploadBufferResultUnmarshaller {

    constructor ()
    {
    }

    /** The XML entry point: not implemented for this JSON service. */
    method UnmarshallXml(context: UnmarshallerContext) returns (r: Result<AddUploadBufferResult, UnmarshallError>)
      ensures r == Failure(NotImplementedException)
    {
      r := Failure(NotImplementedException);
    }

    method Unmarshall(context: UnmarshallerContext, nested: (seq<Token>, nat) -> Decoded<Option<string>>)
      returns (result: AddUploadBufferResult)
      requires context.Valid() && MovesForward(nested)
      modifies context
      ensures context.Valid()
      ensures Decoded(result, context.pos)
              == JsonLoop(context.tokens, old(context.pos), DepthAt(context.tokens, old(context.pos)),
                          DepthAt(context.tokens, old(context.pos)) + 1, nested, AddUploadBufferResult(None))
    {
      result := AddUploadBufferResult(None);
      var originalDepth := context.CurrentDepth();
      var targetDepth := originalDepth + 1;
      ghost var whole := JsonLoop(context.tokens, context.pos, originalDepth, targetDepth, nested, result);
      while true
        invariant context.Valid()
        invariant JsonLoop(context.tokens, context.pos, originalDepth, targetDepth, nested, result) == whole
        decreases |context.tokens| - context.pos
      {
        var more := context.Read();
        if !more {
          break;
        }
        if context.IsKey() && context.CurrentDepth() == targetDepth {
          var skipped := context.Read();
          skipped := context.Read();
          if context.TestExpression(GatewayARNName, targetDepth) {
            var arn := context.Decode(nested);
            result := result.(gatewayARN := arn);
            continue;
          }
        } else if context.IsEndElement() && context.CurrentDepth() <= originalDepth {
          return result;
        }
      }
      return result;
    }
  }

  /** The static field `instance` of AddUploadBufferResultUnmarshaller, as an
      object of its own. */
  class AddUploadBufferResultUnmarshallerStatics {
    var instance: AddUploadBufferResultUnmarshaller?

    constructor ()
      ensures instance == null
    {
      instance := null;
    }

    /** Creates the instance on the first call only; every call returns the cached one. */
    method GetInstance() returns (u: AddUploadBufferResultUnmarshaller)
      modifies this
      ensures old(instance) == null ==> fresh(u)
      ensures old(instance) != null ==> u == old(instance)
      ensures instance == u
    {
      if instance == null {
        instance := new AddUploadBufferResultUnmarshaller();
      }
      return instance;
    }
  }
}
