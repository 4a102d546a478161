/**
 * The unmarshalling cursor shared by the XML and JSON decoders.
 *
 * The runtime's XmlUnmarshallerContext and JsonUnmarshallerContext tokenise
 * a response body; this model replaces their tokeniser by a finite sequence
 * of tokens, each tagged with its kind, its name and the nesting depth the
 * runtime reports for it, and a position: the number of tokens read so far.
 * The token most recently read is the "current" token that the context's
 * properties (IsStartElement, IsKey, CurrentDepth, ...) describe.
 */
module Transform {

  /** What the current token is. JSON's object and array ends are EndElement;
      other JSON tokens that are not keys are Text or StartElement. */
  datatype TokenKind = StartElement | Attribute | EndElement | Key | Text

  datatype Token = Token(kind: TokenKind, name: string, depth: nat)

  /** A decoded value together with the cursor position after decoding it. */
  datatype Decoded<T> = Decoded(value: T, pos: nat)

  /** The position after one `Read` from `pos`: one token further, or still
      `pos` when the stream is exhausted. */
  function ReadPos(ts: seq<Token>, pos: nat): nat
    requires pos <= |ts|
  {
    if pos < |ts| then pos + 1 else pos
  }

  /** `CurrentDepth` after `pos` tokens have been read: the depth of the token
      read last, and 0 before anything has been read. */
  function DepthAt(ts: seq<Token>, pos: nat): nat
    requires pos <= |ts|
  {
    if pos == 0 then 0 else ts[pos - 1].depth
  }

  /**
   * The only thing this model knows of a nested decoder that is not part of
   * it (DBSubnetGroupUnmarshaller, StringUnmarshaller, ...): run from a
   * position inside the stream, it leaves the cursor at the same position or
   * further on, and never past the end.
   */
  ghost predicate MovesForward<T>(decoder: (seq<Token>, nat) -> Decoded<T>)
  {
    forall ts: seq<Token>, p: nat :: p <= |ts| ==> p <= decoder(ts, p).pos <= |ts|
  }

  /** The cursor over one response body. */
  class UnmarshallerContext {
    const tokens: seq<Token>
    var pos: nat

    ghost predicate Valid()
      reads this
    {
      pos <= |tokens|
    }

    constructor (tokens: seq<Token>)
      ensures Valid() && this.tokens == tokens && pos == 0
    {
      this.tokens := tokens;
      pos := 0;
    }

    /** True before the first token has been read. */
    predicate IsStartOfDocument()
      reads this
    {
      pos == 0
    }

    function CurrentDepth(): nat
      reads this
      requires Valid()
    {
      DepthAt(tokens, pos)
    }

    predicate CurrentIs(kind: TokenKind)
      reads this
      requires Valid()
    {
      pos > 0 && tokens[pos - 1].kind == kind
    }

    predicate IsStartElement()
      reads this
      requires Valid()
    {
      CurrentIs(StartElement)
    }

    predicate IsAttribute()
      reads this
      requires Valid()
    {
      CurrentIs(Attribute)
    }

    predicate IsEndElement()
      reads this
      requires Valid()
    {
      CurrentIs(EndElement)
    }

    predicate IsKey()
      reads this
      requires Valid()
    {
      CurrentIs(Key)
    }

    /** The runtime's `TestExpression(expression, depth)`, whose code is not
        part of this model: taken to hold exactly when the current token has
        the given name at the given depth. */
    predicate TestExpression(name: string, depth: nat)
      reads this
      requires Valid()
    {
      pos > 0 && tokens[pos - 1].name == name && CurrentDepth() == depth
    }

    /** Advances one token; false, and no move, at the end of the stream. */
    method Read() returns (more: bool)
      requires Valid()
      modifies this
      ensures Valid()
      ensures more == (old(pos) < |tokens|)
      ensures pos == ReadPos(tokens, old(pos))
    {
      more := pos < |tokens|;
      if more {
        pos := pos + 1;
      }
    }

    /** Runs a nested decoder on this cursor: `XUnmarshaller.GetInstance().Unmarshall(context)`. */
    method Decode<T>(decoder: (seq<Token>, nat) -> Decoded<T>) returns (value: T)
      requires Valid() && MovesForward(decoder)
      modifies this
      ensures Valid()
      ensures Decoded(value, pos) == decoder(tokens, old(pos))
    {
      var d := decoder(tokens, pos);
      value, pos := d.value, d.pos;
    }
  }
}
