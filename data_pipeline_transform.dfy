/**
 * Amazon.DataPipeline.Model.Internal.MarshallTransformations.ReportTaskRunnerHeartbeatResponseUnmarshaller:
 * the response decoder of the ReportTaskRunnerHeartbeat operation, the
 * mapping from a service error code to an exception, and the lazy singleton.
 *
 * The result decoder (ReportTaskRunnerHeartbeatResultUnmarshaller) and the
 * error-body decoder (JsonErrorResponseUnmarshaller) are not part of this
 * model; they are parameters of which only `MovesForward` is known. The
 * inner exception is carried as an opaque value of type parameter `E`.
 */
module DataPipelineTransform {
  import opened Wrappers
  import opened Transform

  /** Who the service blames for an error. */
  datatype ErrorType = Sender | Receiver | Unknown

  /** What the error-body decoder extracts; every string may be null. */
  datatype ErrorResponse = ErrorResponse(errorType: ErrorType, code: Option<string>,
                                         message: Option<string>, requestId: Option<string>)

  /** The exception classes UnmarshallException can return. */
  datatype ExceptionKind = InternalServiceErrorException | InvalidRequestException | AmazonDataPipelineException

  /** An exception with the six values every one of its constructors receives. */
  datatype ServiceException<E> = ServiceException(kind: ExceptionKind, message: Option<string>,
                                                  innerException: E, errorType: ErrorType,
                                                  errorCode: Option<string>, requestId: Option<string>,
                                                  statusCode: nat)

  /** The error codes that have an exception class of their own, each with it. */
  const KnownErrorCodes: map<string, ExceptionKind> :=
    map["InternalServiceErrorException" := InternalServiceErrorException,
        "InvalidRequestException" := InvalidRequestException]

  /**
   * The exception for a decoded error body: the first code compared equal
   * (ordinal, case-sensitive) selects its class, a null or any other code
   * the generic AmazonDataPipelineException; all fields are passed on as they are.
   */
  function ExceptionFor<E>(errorResponse: ErrorResponse, innerException: E, statusCode: nat)
    : (e: ServiceException<E>)
    ensures e.kind == InternalServiceErrorException <==> errorResponse.code == Some("InternalServiceErrorException")
    ensures e.kind == InvalidRequestException <==> errorResponse.code == Some("InvalidRequestException")
    ensures e.kind == AmazonDataPipelineException <==> errorResponse.code.None? || errorResponse.code.value !in KnownErrorCodes
    ensures errorResponse.code.Some? && errorResponse.code.value in KnownErrorCodes ==>
              e.kind == KnownErrorCodes[errorResponse.code.value]
    ensures e.message == errorResponse.message && e.innerException == innerException
    ensures e.errorType == errorResponse.errorType && e.errorCode == errorResponse.code
    ensures e.requestId == errorResponse.requestId && e.statusCode == statusCode
  {
    var code := errorResponse.code;
    var kind :=
      if code != None && code.value == "InternalServiceErrorException" then InternalServiceErrorException
      else if code != None && code.value == "InvalidRequestException" then InvalidRequestException
      else AmazonDataPipelineException;
    ServiceException(kind, errorResponse.message, innerException, errorResponse.errorType,
                     errorResponse.code, errorResponse.requestId, statusCode)
  }

  /** Matching is exact: a code that differs only in case gets the generic exception. */
  lemma ExceptionCodeIsCaseSensitive<E>(t: ErrorType, message: Option<string>, requestId: Option<string>,
                                        innerException: E, statusCode: nat)
    ensures ExceptionFor(ErrorResponse(t, Some("invalidRequestException"), message, requestId), innerException, statusCode).kind
            == AmazonDataPipelineException
    ensures ExceptionFor(ErrorResponse(t, Some("INTERNALSERVICEERROREXCEPTION"), message, requestId), innerException, statusCode).kind
            == AmazonDataPipelineException
  {
  }

  /** An InvalidRequestException body with message "bad input" and request id
      "abc-123" gives the client-fault exception with exactly those values; an
      unknown code "FooBarException" gives the generic one, values kept. */
  lemma ExceptionForExamples<E>(innerException: E, statusCode: nat)
    ensures var e := ExceptionFor(ErrorResponse(Sender, Some("InvalidRequestException"), Some("bad input"), Some("abc-123")),
                                  innerException, statusCode);
            e.kind == InvalidRequestException && e.message == Some("bad input") && e.requestId == Some("abc-123")
    ensures var e := ExceptionFor(ErrorResponse(Unknown, Some("FooBarException"), Some("bad input"), Some("abc-123")),
                                  innerException, statusCode);
            e.kind == AmazonDataPipelineException && e.errorCode == Some("FooBarException")
            && e.message == Some("bad input") && e.requestId == Some("abc-123")
  {
  }

  /** ReportTaskRunnerHeartbeatResponse, with its one result field. */
  datatype ReportTaskRunnerHeartbeatResponse<R> = ReportTaskRunnerHeartbeatResponse(reportTaskRunnerHeartbeatResult: R)

  class ReportTaskRunnerHeartbeatResponseUnmarshaller {

    constructor ()
    {
    }

    /** Reads one token, then stores what the result decoder returns. */
    method Unmarshall<R>(context: UnmarshallerContext, resultDecoder: (seq<Token>, nat) -> Decoded<R>)
      returns (response: ReportTaskRunnerHeartbeatResponse<R>)
      requires context.Valid() && MovesForward(resultDecoder)
      modifies context
      ensures context.Valid()
      ensures var d := resultDecoder(context.tokens, ReadPos(context.tokens, old(context.pos)));
              response.reportTaskRunnerHeartbeatResult == d.value && context.pos == d.pos
    {
      var more := context.Read();
      var result := context.Decode(resultDecoder);
      response := ReportTaskRunnerHeartbeatResponse(result);
    }

    /** Decodes the error body, then maps it to an exception. */
    method UnmarshallException<E>(context: UnmarshallerContext, errorDecoder: (seq<Token>, nat) -> Decoded<ErrorResponse>,
                                  innerException: E, statusCode: nat)
      returns (e: ServiceException<E>)
      requires context.Valid() && MovesForward(errorDecoder)
      modifies context
      ensures context.Valid()
      ensures var d := errorDecoder(context.tokens, old(context.pos));
              e == ExceptionFor(d.value, innerException, statusCode) && context.pos == d.pos
    {
      var errorResponse := context.Decode(errorDecoder);
      e := ExceptionFor(errorResponse, innerException, statusCode);
    }
  }

  /** The static field `instance` of ReportTaskRunnerHeartbeatResponseUnmarshaller,
      as an object of its own. */
  class ReportTaskRunnerHeartbeatResponseUnmarshallerStatics {
    var instance: ReportTaskRunnerHeartbeatResponseUnmarshaller?

    constructor ()
      ensures instance == null
    {
      instance := null;
    }

    /** Creates the instance on the first call only; every call returns the cached one. */
    method GetInstance() returns (u: ReportTaskRunnerHeartbeatResponseUnmarshaller)
      modifies this
      ensures old(instance) == null ==> fresh(u)
      ensures old(instance) != null ==> u == old(instance)
      ensures instance == u
    {
      if instance == null {
        instance := new ReportTaskRunnerHeartbeatResponseUnmarshaller();
      }
      return instance;
    }

    /** Two calls in a row return the same object. */
    method GetInstanceTwice() returns (first: ReportTaskRunnerHeartbeatResponseUnmarshaller,
                                      second: ReportTaskRunnerHeartbeatResponseUnmarshaller)
      modifies this
      ensures first == second && instance == first
      ensures old(instance) != null ==> first == old(instance)
    {
      first := GetInstance();
      second := GetInstance();
    }
  }
}
