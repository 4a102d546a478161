/**
 * Amazon.RDS.Model.Internal.MarshallTransformations.ModifyDBSubnetGroupResultUnmarshaller:
 * the XML decoder of the ModifyDBSubnetGroup result, and its lazy singleton.
 *
 * The decoder of the nested DBSubnetGroup element is not part of this model;
 * it is a parameter `nested` of which only `MovesForward` is known. It
 * returns a nullable reference to a value of the type parameter `G`, which
 * the decoder stores as it is, null included.
 */
module RdsTransform {
  import opened Wrappers
  import opened Transform

  /** ModifyDBSubnetGroupResult: one nullable field. */
  datatype ModifyDBSubnetGroupResult<G> = ModifyDBSubnetGroupResult(dbSubnetGroup: Option<G>)

  /** The wire name of the one field of the result. */
  const DBSubnetGroupName: string := "DBSubnetGroup"

  /** A start element or attribute named DBSubnetGroup at exactly the target depth. */
  predicate OpensDBSubnetGroup(t: Token, targetDepth: nat)
  {
    (t.kind == StartElement || t.kind == Attribute) && t.name == DBSubnetGroupName && t.depth == targetDepth
  }

  /** An end element strictly shallower than where decoding started. */
  predicate ClosesXmlResult(t: Token, originalDepth: nat)
  {
    t.kind == EndElement && t.depth < originalDepth
  }

  /**
   * The rest of the `while (context.Read())` loop, run from position `pos`
   * with `result` built so far: the result it returns and where it leaves
   * the cursor.
   */
  function XmlLoop<G>(ts: seq<Token>, pos: nat, originalDepth: nat, targetDepth: nat,
                      nested: (seq<Token>, nat) -> Decoded<Option<G>>,
                      result: ModifyDBSubnetGroupResult<G>): (r: Decoded<ModifyDBSubnetGroupResult<G>>)
    requires pos <= |ts| && MovesForward(nested)
    ensures pos <= r.pos <= |ts|
    ensures pos < |ts| ==> pos < r.pos
    decreases |ts| - pos
  {
    if pos == |ts| then Decoded(result, pos)
    else
      var t := ts[pos];
      if OpensDBSubnetGroup(t, targetDepth) then
        var d := nested(ts, pos + 1);
        XmlLoop(ts, d.pos, originalDepth, targetDepth, nested, result.(dbSubnetGroup := d.value))
      else if ClosesXmlResult(t, originalDepth) then
        Decoded(result, pos + 1)
      else
        XmlLoop(ts, pos + 1, originalDepth, targetDepth, nested, result)
  }

  /** Without a DBSubnetGroup start element or attribute at the target depth,
      the result keeps the value it had: unknown elements are skipped, and so
      is a DBSubnetGroup at any other depth. */
  lemma {:induction false} XmlNoMatchKeepsResult<G>(ts: seq<Token>, pos: nat, originalDepth: nat, targetDepth: nat,
                                                   nested: (seq<Token>, nat) -> Decoded<Option<G>>,
                                                   result: ModifyDBSubnetGroupResult<G>)
    requires pos <= |ts| && MovesForward(nested)
    requires forall i :: pos <= i < |ts| ==> !OpensDBSubnetGroup(ts[i], targetDepth)
    ensures XmlLoop(ts, pos, originalDepth, targetDepth, nested, result).value == result
    decreases |ts| - pos
  {
    if pos < |ts| {
      assert !OpensDBSubnetGroup(ts[pos], targetDepth);
      XmlNoMatchKeepsResult(ts, pos + 1, originalDepth, targetDepth, nested, result);
    }
  }

  /** The decoder returns either because the stream is exhausted or right
      after reading an end element strictly shallower than the start depth. */
  lemma {:induction false} XmlStopsAtBoundaryOrEnd<G>(ts: seq<Token>, pos: nat, originalDepth: nat, targetDepth: nat,
                                                     nested: (seq<Token>, nat) -> Decoded<Option<G>>,
                                                     result: ModifyDBSubnetGroupResult<G>)
    requires pos <= |ts| && MovesForward(nested)
    ensures var r := XmlLoop(ts, pos, originalDepth, targetDepth, nested, result);
            r.pos == |ts| || (0 < r.pos && ClosesXmlResult(ts[r.pos - 1], originalDepth))
    decreases |ts| - pos
  {
    if pos < |ts| {
      var t := ts[pos];
      if OpensDBSubnetGroup(t, targetDepth) {
        var d := nested(ts, pos + 1);
        XmlStopsAtBoundaryOrEnd(ts, d.pos, originalDepth, targetDepth, nested, result.(dbSubnetGroup := d.value));
      } else if !ClosesXmlResult(t, originalDepth) {
        XmlStopsAtBoundaryOrEnd(ts, pos + 1, originalDepth, targetDepth, nested, result);
      }
    }
  }

  /** Conversely, the first such end element stops the decoder: when the
      tokens before it hold no DBSubnetGroup match, the decoder skips them,
      returns right after it and leaves the result as it was. */
  lemma {:induction false} XmlStopsAtFirstBoundary<G>(ts: seq<Token>, pos: nat, j: nat, originalDepth: nat, targetDepth: nat,
                                                     nested: (seq<Token>, nat) -> Decoded<Option<G>>,
                                                     result: ModifyDBSubnetGroupResult<G>)
    requires pos <= j < |ts| && MovesForward(nested)
    requires ClosesXmlResult(ts[j], originalDepth)
    requires forall i :: pos <= i < j ==> !OpensDBSubnetGroup(ts[i], targetDepth) && !ClosesXmlResult(ts[i], originalDepth)
    ensures XmlLoop(ts, pos, originalDepth, targetDepth, nested, result) == Decoded(result, j + 1)
    decreases j - pos
  {
    if pos < j {
      assert !OpensDBSubnetGroup(ts[pos], targetDepth) && !ClosesXmlResult(ts[pos], originalDepth);
      XmlStopsAtFirstBoundary(ts, pos + 1, j, originalDepth, targetDepth, nested, result);
    }
  }

  /** Without such an end element the decoder reads the whole stream and
      returns what it has accumulated; running out of tokens is not an error. */
  lemma {:induction false} XmlNoBoundaryReadsAll<G>(ts: seq<Token>, pos: nat, originalDepth: nat, targetDepth: nat,
                                                   nested: (seq<Token>, nat) -> Decoded<Option<G>>,
                                                   result: ModifyDBSubnetGroupResult<G>)
    requires pos <= |ts| && MovesForward(nested)
    requires forall i :: pos <= i < |ts| ==> !ClosesXmlResult(ts[i], originalDepth)
    ensures XmlLoop(ts, pos, originalDepth, targetDepth, nested, result).pos == |ts|
    decreases |ts| - pos
  {
    if pos < |ts| {
      var t := ts[pos];
      assert !ClosesXmlResult(t, originalDepth);
      if OpensDBSubnetGroup(t, targetDepth) {
        var d := nested(ts, pos + 1);
        XmlNoBoundaryReadsAll(ts, d.pos, originalDepth, targetDepth, nested, result.(dbSubnetGroup := d.value));
      } else {
        XmlNoBoundaryReadsAll(ts, pos + 1, originalDepth, targetDepth, nested, result);
      }
    }
  }

  /** Started at the beginning of the document (depth 0, target depth 3) the
      decoder never finds an end element shallower than 0, so it consumes the
      whole stream. */
  lemma XmlFromStartOfDocumentReadsAll<G>(ts: seq<Token>, nested: (seq<Token>, nat) -> Decoded<Option<G>>)
    requires MovesForward(nested)
    ensures XmlLoop(ts, 0, DepthAt(ts, 0), DepthAt(ts, 0) + 3, nested, ModifyDBSubnetGroupResult(None)).pos == |ts|
  {
    XmlNoBoundaryReadsAll(ts, 0, 0, 3, nested, ModifyDBSubnetGroupResult(None));
  }

  /** When DBSubnetGroup matches more than once the last decoded value is
      kept: a match whose nested decode is followed by no further match
      determines the result. */
  lemma XmlLastMatchWins<G>(ts: seq<Token>, pos: nat, originalDepth: nat, targetDepth: nat,
                            nested: (seq<Token>, nat) -> Decoded<Option<G>>,
                            result: ModifyDBSubnetGroupResult<G>)
    requires pos < |ts| && MovesForward(nested)
    requires OpensDBSubnetGroup(ts[pos], targetDepth)
    requires forall i :: nested(ts, pos + 1).pos <= i < |ts| ==> !OpensDBSubnetGroup(ts[i], targetDepth)
    ensures XmlLoop(ts, pos, originalDepth, targetDepth, nested, result).value
            == ModifyDBSubnetGroupResult(nested(ts, pos + 1).value)
  {
    var d := nested(ts, pos + 1);
    XmlNoMatchKeepsResult(ts, d.pos, originalDepth, targetDepth, nested, ModifyDBSubnetGroupResult(d.value));
  }

  class ModifyDBSubnetGroupResultUnmarshaller {

    constructor ()
    {
    }

    method Unmarshall<G>(context: UnmarshallerContext, nested: (seq<Token>, nat) -> Decoded<Option<G>>)
      returns (result: ModifyDBSubnetGroupResult<G>)
      requires context.Valid() && MovesForward(nested)
      modifies context
      ensures context.Valid()
      ensures Decoded(result, context.pos)
              == XmlLoop(context.tokens, old(context.pos), DepthAt(context.tokens, old(context.pos)),
                         DepthAt(context.tokens, old(context.pos)) + 1 + (if old(context.pos) == 0 then 2 else 0),
                         nested, ModifyDBSubnetGroupResult(None))
    {
      result := ModifyDBSubnetGroupResult(None);
      var originalDepth := context.CurrentDepth();
      var targetDepth := originalDepth + 1;
      if context.IsStartOfDocument() {
        targetDepth := targetDepth + 2;
      }
      ghost var whole := XmlLoop(context.tokens, context.pos, originalDepth, targetDepth, nested, result);
      while true
        invariant context.Valid()
        invariant XmlLoop(context.tokens, context.pos, originalDepth, targetDepth, nested, result) == whole
        decreases |context.tokens| - context.pos
      {
        var more := context.Read();
        if !more {
          break;
        }
        if context.IsStartElement() || context.IsAttribute() {
          if context.TestExpression(DBSubnetGroupName, targetDepth) {
            var group := context.Decode(nested);
            result := result.(dbSubnetGroup := group);
            continue;
          }
        } else if context.IsEndElement() && context.CurrentDepth() < originalDepth {
          return result;
        }
      }
      return result;
    }
  }

  /** The static field `instance` of ModifyDBSubnetGroupResultUnmarshaller,
      as an object of its own. */
  class ModifyDBSubnetGroupResultUnmarshallerStatics {
    var instance: ModifyDBSubnetGroupResultUnmarshaller?

    constructor ()
      ensures instance == null
    {
      instance := null;
    }

    /** Creates the instance on the first call only; every call returns the cached one. */
    method GetInstance() returns (u: ModifyDBSubnetGroupResultUnmarshaller)
      modifies this
      ensures old(instance) == null ==> fresh(u)
      ensures old(instance) != null ==> u == old(instance)
      ensures instance == u
    {
      if instance == null {
        instance := new ModifyDBSubnetGroupResultUnmarshaller();
      }
      return instance;
    }
  }
}
