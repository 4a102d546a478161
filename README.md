# A Dafny model of five pieces of logic in the AWS SDK for .NET client code

This project models the parts of the generated AWS SDK for .NET client code that have
sequential logic of their own, and proves properties of them:

- **Depth-bounded response decoders.** `ModifyDBSubnetGroupResultUnmarshaller` (RDS, XML)
  and `AddUploadBufferResultUnmarshaller` (StorageGateway, JSON) walk a cursor over a
  token stream. They fill their result field only when a token of the right kind and name
  appears at exactly the target depth. They stop at a closing token that ends the element
  they started in, by a depth test that differs between the two. The XML decoder targets
  `originalDepth + 1`, plus 2 at the start of the document, and stops on an end element
  strictly shallower than `originalDepth`. The JSON decoder targets `originalDepth + 1`
  and stops on an end token at most `originalDepth` deep. After a key at the target depth
  the JSON decoder reads two more tokens without looking at them, and only then tests the
  name. An end token among those two is therefore skipped.
- **Error-code to exception mapping** (`ReportTaskRunnerHeartbeatResponseUnmarshaller`,
  DataPipeline). A first-match chain of exact string comparisons with a generic
  fallback. It also has the response decoder that reads one token and then delegates.
- **The Route53 request fix-up** (`AmazonRoute53Client.ProcessRequestHandlers`). It
  removes duplicated `/hostedzone/` and `/change/` path segments. When the rewritten path
  ends in `/rrset/`, it also removes the duplicated prefix from `<HostedZoneId>` in the
  body.
- **Lazy singletons and a lazy getter**: the three `GetInstance` methods and the
  `ListVolumeRecoveryPointsResult` property of `ListVolumeRecoveryPointsResponse`.

Modules and files:

| file | module | models |
|---|---|---|
| `wrappers.dfy` | `Wrappers` | `Option` (a nullable reference), `Result` (a call that may throw) |
| `transform.dfy` | `Transform` | the unmarshaller context: a token sequence with a read position |
| `rds_transform.dfy` | `RdsTransform` | `ModifyDBSubnetGroupResultUnmarshaller` |
| `storage_gateway_transform.dfy` | `StorageGatewayTransform` | `AddUploadBufferResultUnmarshaller` |
| `data_pipeline_transform.dfy` | `DataPipelineTransform` | `ReportTaskRunnerHeartbeatResponseUnmarshaller` |
| `storage_gateway_model.dfy` | `StorageGatewayModel` | `ListVolumeRecoveryPointsResponse` |
| `dotnet_strings.dfy` | `DotNetStrings` | ordinal `String.Contains`, `String.Replace`, `String.EndsWith` |
| `route53_client.dfy` | `Route53` | `AmazonRoute53Client.ProcessRequestHandlers` |

How the model is built:

- **The context.** The runtime's `XmlUnmarshallerContext` and `JsonUnmarshallerContext`
  are one class, `UnmarshallerContext`. It has a constant sequence of tokens (kind,
  name, depth) and a mutable position, the number of tokens read so far. The current
  token is the one read last. `CurrentDepth` is its depth, or 0 before the first read.
  `IsStartOfDocument` holds before the first read. `Read` advances one token and
  returns false, without moving, at the end.
- **`TestExpression` is an assumption.** Its code is not part of this model.
  `TestExpression(name, depth)` is taken to hold exactly when the current token has
  that name and the current depth equals `depth`.
- **Nested decoders are parameters.** `DBSubnetGroupUnmarshaller`, `StringUnmarshaller`,
  `ReportTaskRunnerHeartbeatResultUnmarshaller` and `JsonErrorResponseUnmarshaller` are
  not part of this model. Each is a function parameter from (tokens, position) to (value,
  new position). The only thing known about it (`MovesForward`) is that it leaves the
  cursor at the same place or further on, never past the end. The DBSubnetGroup and
  string decoders return an `Option`, because the C# reference they return may be null,
  and the result decoders store it as it is.
- **Loops against specification functions.** Each decoder's `while (context.Read())`
  loop is a Dafny `while` loop in a method that changes the context. The method is proved
  equal to a tail-recursive specification function (`XmlLoop`, `JsonLoop`), and the
  lemmas are about those functions.
- **Static fields as holder objects.** Dafny has no static mutable fields. Each `static
  instance` field is a field of a holder object (`...Statics`), and `GetInstance` is a
  method of that object.

The decoder bodies have no error path of their own: they skip every token they do not
recognise, and they return what they have when the stream runs out. Errors raised by the
tokeniser or by the nested decoders are not part of this model.

## Model

| member | source | states |
|---|---|---|
| `Transform.ReadPos` | AWSSDK/Amazon.RDS/Model/Internal/MarshallTransformations/ModifyDBSubnetGroupResultUnmarshaller.cs:35 | definition: the position after one `Read`, one token further while tokens remain and unchanged at the end (the JSON decoder reads at its lines 39 and 43-44) |
| `Transform.DepthAt` | AWSSDK/Amazon.RDS/Model/Internal/MarshallTransformations/ModifyDBSubnetGroupResultUnmarshaller.cs:30 | definition: the depth of the token before a position, 0 at position 0; `CurrentDepth` is `DepthAt` of the context's position |
| `Transform.UnmarshallerContext.IsStartElement` | AWSSDK/Amazon.RDS/Model/Internal/MarshallTransformations/ModifyDBSubnetGroupResultUnmarshaller.cs:37 | definition: a token has been read and it is a start element |
| `Transform.UnmarshallerContext.IsAttribute` | AWSSDK/Amazon.RDS/Model/Internal/MarshallTransformations/ModifyDBSubnetGroupResultUnmarshaller.cs:37 | definition: a token has been read and it is an attribute |
| `Transform.UnmarshallerContext.IsEndElement` | AWSSDK/Amazon.RDS/Model/Internal/MarshallTransformations/ModifyDBSubnetGroupResultUnmarshaller.cs:45 | definition: a token has been read and it is an end token (the JSON decoder makes the same test at its line 53) |
| `Transform.UnmarshallerContext.IsKey` | AWSSDK/Amazon.StorageGateway/Model/Internal/MarshallTransformations/AddUploadBufferResultUnmarshaller.cs:41 | definition: a token has been read and it is a JSON key |
| `Transform.UnmarshallerContext.CurrentDepth` | AWSSDK/Amazon.RDS/Model/Internal/MarshallTransformations/ModifyDBSubnetGroupResultUnmarshaller.cs:30 | definition: the depth of the token read last, 0 before the first read |
| `Transform.UnmarshallerContext.IsStartOfDocument` | AWSSDK/Amazon.RDS/Model/Internal/MarshallTransformations/ModifyDBSubnetGroupResultUnmarshaller.cs:32 | definition: true exactly when no token has been read yet |
| `Transform.UnmarshallerContext.TestExpression` | AWSSDK/Amazon.StorageGateway/Model/Internal/MarshallTransformations/AddUploadBufferResultUnmarshaller.cs:46 | definition, an assumption about code not in this model: a token has been read, it has the given name, and the current depth is the given depth (the RDS decoder makes the same test at its line 39) |
| `Transform.UnmarshallerContext.Read` | AWSSDK/Amazon.RDS/Model/Internal/MarshallTransformations/ModifyDBSubnetGroupResultUnmarshaller.cs:35 | `Read` advances exactly one token and returns true while tokens remain; at the end it returns false and does not move |
| `Transform.UnmarshallerContext.Decode` | AWSSDK/Amazon.RDS/Model/Internal/MarshallTransformations/ModifyDBSubnetGroupResultUnmarshaller.cs:41 | running a nested decoder on the context returns that decoder's value and leaves the cursor where the decoder leaves it |
| `RdsTransform.OpensDBSubnetGroup` | AWSSDK/Amazon.RDS/Model/Internal/MarshallTransformations/ModifyDBSubnetGroupResultUnmarshaller.cs:37-39 | definition: the token is a start element or an attribute, named DBSubnetGroup, at exactly the target depth |
| `RdsTransform.ClosesXmlResult` | AWSSDK/Amazon.RDS/Model/Internal/MarshallTransformations/ModifyDBSubnetGroupResultUnmarshaller.cs:45 | definition: the token is an end element strictly shallower than `originalDepth` |
| `RdsTransform.XmlLoop` | AWSSDK/Amazon.RDS/Model/Internal/MarshallTransformations/ModifyDBSubnetGroupResultUnmarshaller.cs:35-49 | the XML loop terminates on every finite stream; it ends with the cursor between its start and the end of the stream, strictly further on if any token was left |
| `RdsTransform.ModifyDBSubnetGroupResultUnmarshaller.Unmarshall` | AWSSDK/Amazon.RDS/Model/Internal/MarshallTransformations/ModifyDBSubnetGroupResultUnmarshaller.cs:26-54 | the decoder starts from an empty result, with `originalDepth` the current depth and `targetDepth = originalDepth + 1`, plus 2 exactly when at the start of the document; its result and final cursor are those of `XmlLoop` |
| `RdsTransform.XmlNoMatchKeepsResult` | AWSSDK/Amazon.RDS/Model/Internal/MarshallTransformations/ModifyDBSubnetGroupResultUnmarshaller.cs:35-49 | if no start element or attribute named DBSubnetGroup appears at exactly the target depth, the result keeps its value (null for a fresh result); a DBSubnetGroup at another depth and unknown tokens are skipped |
| `RdsTransform.XmlStopsAtBoundaryOrEnd` | AWSSDK/Amazon.RDS/Model/Internal/MarshallTransformations/ModifyDBSubnetGroupResultUnmarshaller.cs:45-48 | the decoder stops either at the end of the stream or right after an end element strictly shallower than `originalDepth` |
| `RdsTransform.XmlStopsAtFirstBoundary` | AWSSDK/Amazon.RDS/Model/Internal/MarshallTransformations/ModifyDBSubnetGroupResultUnmarshaller.cs:35-48 | the first end element strictly shallower than `originalDepth` stops the decoder: if no DBSubnetGroup match comes before it, the decoder skips the tokens before it, returns right after it, and leaves the result unchanged |
| `RdsTransform.XmlNoBoundaryReadsAll` | AWSSDK/Amazon.RDS/Model/Internal/MarshallTransformations/ModifyDBSubnetGroupResultUnmarshaller.cs:35-53 | without such an end element the decoder reads to the end of the stream and returns the partially filled result, without error |
| `RdsTransform.XmlFromStartOfDocumentReadsAll` | AWSSDK/Amazon.RDS/Model/Internal/MarshallTransformations/ModifyDBSubnetGroupResultUnmarshaller.cs:30-33 | started at the beginning of the document (depth 0, target depth 3), the decoder never returns early and consumes the whole stream |
| `RdsTransform.XmlLastMatchWins` | AWSSDK/Amazon.RDS/Model/Internal/MarshallTransformations/ModifyDBSubnetGroupResultUnmarshaller.cs:39-42 | a DBSubnetGroup match whose nested decode is followed by no further match decides the result: when the name matches more than once, the last decoded value is kept, null included |
| `RdsTransform.ModifyDBSubnetGroupResultUnmarshallerStatics.GetInstance` | AWSSDK/Amazon.RDS/Model/Internal/MarshallTransformations/ModifyDBSubnetGroupResultUnmarshaller.cs:56-65 | a new instance is created only when the field is null; the field then holds the returned instance, and every later call returns that same instance |
| `StorageGatewayTransform.IsTargetKey` | AWSSDK/Amazon.StorageGateway/Model/Internal/MarshallTransformations/AddUploadBufferResultUnmarshaller.cs:41 | definition: the token is a key at exactly the target depth |
| `StorageGatewayTransform.NamesGatewayARN` | AWSSDK/Amazon.StorageGateway/Model/Internal/MarshallTransformations/AddUploadBufferResultUnmarshaller.cs:46 | definition: the token the name test sees, two reads after the key, is named GatewayARN and is at the target depth |
| `StorageGatewayTransform.ClosesJsonResult` | AWSSDK/Amazon.StorageGateway/Model/Internal/MarshallTransformations/AddUploadBufferResultUnmarshaller.cs:53 | definition: the token is an end token at most `originalDepth` deep |
| `StorageGatewayTransform.AfterKey` | AWSSDK/Amazon.StorageGateway/Model/Internal/MarshallTransformations/AddUploadBufferResultUnmarshaller.cs:43-44 | after a key, the two further reads leave the cursor three tokens past the key's position, or at the end of the stream if that is nearer, whatever the reads return |
| `StorageGatewayTransform.JsonLoop` | AWSSDK/Amazon.StorageGateway/Model/Internal/MarshallTransformations/AddUploadBufferResultUnmarshaller.cs:39-57 | the JSON loop terminates on every finite stream because each iteration consumes at least one token; it ends between its start and the end of the stream |
| `StorageGatewayTransform.AddUploadBufferResultUnmarshaller.Unmarshall` | AWSSDK/Amazon.StorageGateway/Model/Internal/MarshallTransformations/AddUploadBufferResultUnmarshaller.cs:33-61 | the decoder starts from a result with GatewayARN null, with `targetDepth` exactly `originalDepth + 1` and no start-of-document adjustment; its result and final cursor are those of `JsonLoop` |
| `StorageGatewayTransform.AddUploadBufferResultUnmarshaller.UnmarshallXml` | AWSSDK/Amazon.StorageGateway/Model/Internal/MarshallTransformations/AddUploadBufferResultUnmarshaller.cs:28-31 | the XML-context entry point always fails with NotImplementedException |
| `StorageGatewayTransform.JsonNoTargetKeyKeepsResult` | AWSSDK/Amazon.StorageGateway/Model/Internal/MarshallTransformations/AddUploadBufferResultUnmarshaller.cs:41-52 | only key tokens at exactly the target depth are examined: a stream without one leaves the result as it was |
| `StorageGatewayTransform.JsonNoGatewayARNKeepsResult` | AWSSDK/Amazon.StorageGateway/Model/Internal/MarshallTransformations/AddUploadBufferResultUnmarshaller.cs:46-50 | GatewayARN is assigned only on a GatewayARN match; with any other keys it stays at its value (null for a fresh result) |
| `StorageGatewayTransform.JsonStopsAtBoundaryOrEnd` | AWSSDK/Amazon.StorageGateway/Model/Internal/MarshallTransformations/AddUploadBufferResultUnmarshaller.cs:53-56 | the decoder stops either at the end of the stream or right after an end token with depth at most `originalDepth` |
| `StorageGatewayTransform.JsonStopsAtFirstBoundary` | AWSSDK/Amazon.StorageGateway/Model/Internal/MarshallTransformations/AddUploadBufferResultUnmarshaller.cs:39-56 | the first end token at most `originalDepth` deep stops the decoder: if no key at the target depth comes before it, the decoder skips the tokens before it, returns right after it, and leaves the result unchanged |
| `StorageGatewayTransform.JsonNoBoundaryReadsAll` | AWSSDK/Amazon.StorageGateway/Model/Internal/MarshallTransformations/AddUploadBufferResultUnmarshaller.cs:39-60 | without such an end token the decoder reads to the end and returns the accumulated result, without error |
| `StorageGatewayTransform.JsonLastMatchWins` | AWSSDK/Amazon.StorageGateway/Model/Internal/MarshallTransformations/AddUploadBufferResultUnmarshaller.cs:46-49 | a GatewayARN match whose string decode is followed by no further GatewayARN token decides the result: the last match wins, and a null string from the decoder leaves GatewayARN null |
| `StorageGatewayTransform.AddUploadBufferResultUnmarshallerStatics.GetInstance` | AWSSDK/Amazon.StorageGateway/Model/Internal/MarshallTransformations/AddUploadBufferResultUnmarshaller.cs:63-69 | a new instance is created only when the field is null; every later call returns the cached instance |
| `DataPipelineTransform.ExceptionFor` | AWSSDK/Amazon.DataPipeline/Model/Internal/MarshallTransformations/ReportTaskRunnerHeartbeatResponseUnmarshaller.cs:44-54 | the exception is InternalServiceErrorException if and only if the code equals "InternalServiceErrorException", and InvalidRequestException if and only if it equals "InvalidRequestException"; a null code or any other code gives AmazonDataPipelineException; message, inner exception, error type, code, request id and status code are carried over unchanged |
| `DataPipelineTransform.ExceptionCodeIsCaseSensitive` | AWSSDK/Amazon.DataPipeline/Model/Internal/MarshallTransformations/ReportTaskRunnerHeartbeatResponseUnmarshaller.cs:44-52 | matching is exact string equality, so a code that differs only in case gets the generic exception |
| `DataPipelineTransform.ExceptionForExamples` | AWSSDK/Amazon.DataPipeline/Model/Internal/MarshallTransformations/ReportTaskRunnerHeartbeatResponseUnmarshaller.cs:49-54 | "InvalidRequestException" with message "bad input" and request id "abc-123" gives InvalidRequestException carrying both; an unknown "FooBarException" gives the generic exception with the code, message and request id kept |
| `DataPipelineTransform.ReportTaskRunnerHeartbeatResponseUnmarshaller.Unmarshall` | AWSSDK/Amazon.DataPipeline/Model/Internal/MarshallTransformations/ReportTaskRunnerHeartbeatResponseUnmarshaller.cs:29-38 | the cursor is advanced exactly once (not at all at the end of the stream); then the result decoder's output is stored in ReportTaskRunnerHeartbeatResult, and the cursor is left where that decoder leaves it |
| `DataPipelineTransform.ReportTaskRunnerHeartbeatResponseUnmarshaller.UnmarshallException` | AWSSDK/Amazon.DataPipeline/Model/Internal/MarshallTransformations/ReportTaskRunnerHeartbeatResponseUnmarshaller.cs:40-55 | the error body is decoded from the context, and the exception returned is `ExceptionFor` of that body, the inner exception and the status code |
| `DataPipelineTransform.ReportTaskRunnerHeartbeatResponseUnmarshallerStatics.GetInstance` | AWSSDK/Amazon.DataPipeline/Model/Internal/MarshallTransformations/ReportTaskRunnerHeartbeatResponseUnmarshaller.cs:57-65 | a new instance is created only when the field is null; every later call returns the cached instance |
| `DataPipelineTransform.ReportTaskRunnerHeartbeatResponseUnmarshallerStatics.GetInstanceTwice` | AWSSDK/Amazon.DataPipeline/Model/Internal/MarshallTransformations/ReportTaskRunnerHeartbeatResponseUnmarshaller.cs:57-65 | two consecutive calls return the same instance, and it is the one already cached if there was one |
| `StorageGatewayModel.ListVolumeRecoveryPointsResponse.constructor` | AWSSDK/Amazon.StorageGateway/Model/ListVolumeRecoveryPointsResponse.cs:29 | a fresh response has a null result field |
| `StorageGatewayModel.ListVolumeRecoveryPointsResponse.GetListVolumeRecoveryPointsResult` | AWSSDK/Amazon.StorageGateway/Model/ListVolumeRecoveryPointsResponse.cs:38-46 | the getter never returns null; when the field is null it allocates a new empty result and stores it; otherwise it returns the stored object |
| `StorageGatewayModel.ListVolumeRecoveryPointsResponse.SetListVolumeRecoveryPointsResult` | AWSSDK/Amazon.StorageGateway/Model/ListVolumeRecoveryPointsResponse.cs:47 | the setter stores its value, null included |
| `StorageGatewayModel.ListVolumeRecoveryPointsResponse.GetTwice` | AWSSDK/Amazon.StorageGateway/Model/ListVolumeRecoveryPointsResponse.cs:40-45 | two gets with no set in between return the same object, newly allocated if the field was null |
| `StorageGatewayModel.ListVolumeRecoveryPointsResponse.SetThenGet` | AWSSDK/Amazon.StorageGateway/Model/ListVolumeRecoveryPointsResponse.cs:45-47 | after setting a non-null value v, get returns v |
| `StorageGatewayModel.ListVolumeRecoveryPointsResponse.SetNullThenGet` | AWSSDK/Amazon.StorageGateway/Model/ListVolumeRecoveryPointsResponse.cs:40-47 | after setting null, get returns a newly allocated result, different from the object stored before |
| `DotNetStrings.Contains` | AWSSDK/Amazon.Route53/AmazonRoute53Client.cs:719 | definition of ordinal `String.Contains`: the pattern fits and either starts the string or occurs in its tail; `ContainsIffOccurs` relates it to an occurrence index (the same call is made at lines 723 and 731) |
| `DotNetStrings.EndsWith` | AWSSDK/Amazon.Route53/AmazonRoute53Client.cs:728 | definition of `String.EndsWith`: the suffix fits and equals the end of the string |
| `DotNetStrings.EndsWithIffOccurs` | AWSSDK/Amazon.Route53/AmazonRoute53Client.cs:728 | `EndsWith` holds if and only if the suffix occurs at the string's length minus the suffix's length, the last place it fits |
| `DotNetStrings.ReplaceAll` | AWSSDK/Amazon.Route53/AmazonRoute53Client.cs:721 | definition of ordinal `String.Replace`: scanning left to right, each occurrence not overlapping an earlier replaced one becomes the replacement; the lemmas below state what it computes (the same call is made at lines 725 and 733) |
| `DotNetStrings.ContainsIffOccurs` | AWSSDK/Amazon.Route53/AmazonRoute53Client.cs:719 | `Contains` holds if and only if the pattern occurs at some index of the string |
| `DotNetStrings.ReplaceAllAbsent` | AWSSDK/Amazon.Route53/AmazonRoute53Client.cs:731-734 | replacing a pattern that does not occur leaves the text unchanged |
| `DotNetStrings.ReplaceAllLength` | AWSSDK/Amazon.Route53/AmazonRoute53Client.cs:721 | a replacement no longer than its pattern never lengthens the string; a strictly shorter one shortens it exactly when the pattern occurs |
| `DotNetStrings.ReplaceAllIsJoinOfSplit` | AWSSDK/Amazon.Route53/AmazonRoute53Client.cs:721 | `Replace` equals splitting at the occurrences of the pattern and joining the parts with the replacement |
| `DotNetStrings.SplitJoinRoundTrip` | AWSSDK/Amazon.Route53/AmazonRoute53Client.cs:721 | joining the parts of the split with the pattern gives back the original string |
| `DotNetStrings.SplitPartsLeftmost` | AWSSDK/Amazon.Route53/AmazonRoute53Client.cs:721 | the occurrences are found left to right without overlap: no occurrence starts inside a part that the pattern follows, and the last part holds none |
| `DotNetStrings.SplitPartsFree` | AWSSDK/Amazon.Route53/AmazonRoute53Client.cs:721 | no part of the split contains the pattern |
| `DotNetStrings.ReplaceAllByParts` | AWSSDK/Amazon.Route53/AmazonRoute53Client.cs:721 | `Replace` written out: the string is its leftmost-found, pattern-free parts joined by the pattern, and the result is the same parts joined by the replacement |
| `Route53.FixedResourcePath` | AWSSDK/Amazon.Route53/AmazonRoute53Client.cs:719-726 | definition: the hosted-zone duplicate replaced when present, then the change duplicate replaced when present in that result |
| `Route53.FixedContent` | AWSSDK/Amazon.Route53/AmazonRoute53Client.cs:728-736 | definition: when the rewritten path ends with "/rrset/", the body with "<HostedZoneId>/hostedzone/" replaced by "<HostedZoneId>" when present; otherwise the body as it was |
| `Route53.AmazonRoute53Client.ProcessRequestHandlers` | AWSSDK/Amazon.Route53/AmazonRoute53Client.cs:714-737 | the path becomes `FixedResourcePath` of the old path; the body becomes `FixedContent` of the rewritten path and the old body; nothing but ResourcePath and Content changes |
| `Route53.CleanRequestUnchanged` | AWSSDK/Amazon.Route53/AmazonRoute53Client.cs:719-736 | a path with neither duplicated segment that does not end in "/rrset/" leaves both path and body unchanged |
| `Route53.FixedResourcePathIsTwoReplacements` | AWSSDK/Amazon.Route53/AmazonRoute53Client.cs:719-726 | the two `Contains` guards make no difference: the path is the hosted-zone replacement followed by the change replacement |
| `Route53.FixedResourcePathByParts` | AWSSDK/Amazon.Route53/AmazonRoute53Client.cs:719-726 | every non-overlapping "/hostedzone//hostedzone/" found left to right becomes "/hostedzone/"; then every "/change//change/" of that result becomes "/change/" |
| `Route53.FixedResourcePathShrinks` | AWSSDK/Amazon.Route53/AmazonRoute53Client.cs:719-726 | the rewritten path is never longer than the input; it is shorter exactly when the input contains one of the two duplicated segments |
| `Route53.FixedContentRewrite` | AWSSDK/Amazon.Route53/AmazonRoute53Client.cs:728-736 | the body changes only when the rewritten path ends with "/rrset/", and then it becomes the replacement of "<HostedZoneId>/hostedzone/" by "<HostedZoneId>"; a body without that substring keeps its text |
| `Route53.FixedContentByParts` | AWSSDK/Amazon.Route53/AmazonRoute53Client.cs:730-735 | in the "/rrset/" branch, the body's parts between occurrences of "<HostedZoneId>/hostedzone/" (none containing it) are joined with "<HostedZoneId>" |
| `Route53.TripleSegmentKeepsDuplicate` | AWSSDK/Amazon.Route53/AmazonRoute53Client.cs:719-726 | one pass removes one duplication only: the path "/hostedzone//hostedzone//hostedzone/Z1" becomes "/hostedzone//hostedzone/Z1", which still contains the hosted-zone duplicate |

## Left out

- The Route53 client's constructors and its `Operation` / `BeginOperation` / `EndOperation` methods with `invokeOperation`: credentials, configuration, signing, asynchronous results and HTTP transport over base classes that are not part of this model.
- `base.ProcessRequestHandlers`, which runs first in the override: a call into a base class that is not part of this model. It is taken to change nothing.
- The UTF-8 decoding and re-encoding of the Route53 request body. The body is modelled as text, so the model does not see byte sequences that are not valid UTF-8 and would change on that round trip.
- A null `ResourcePath`, or a null `Content` in the "/rrset/" branch, would throw in the source. The model's strings are never null.
- `String.EndsWith(string)` compares with the current culture in .NET. The model compares character by character, which agrees for the ASCII suffix "/rrset/" in ordinary text.
- The runtime's tokenisers (`XmlUnmarshallerContext`, `JsonUnmarshallerContext`) are replaced by a given token sequence. `TestExpression` is an assumption, as stated above.
- The nested decoders (`DBSubnetGroupUnmarshaller`, `StringUnmarshaller`, `ReportTaskRunnerHeartbeatResultUnmarshaller`, `JsonErrorResponseUnmarshaller`) are parameters known only to move the cursor forward. Their values are arbitrary (a possibly null one for the DBSubnetGroup and string decoders), and any conversion errors they raise are not part of this model.
- Because the nested decoders are arbitrary, the model does not prove that tokens appended after the closing boundary leave the result unchanged. A nested decoder may depend on tokens it does not consume.
- The result records (`ModifyDBSubnetGroupResult`, `AddUploadBufferResult`, `ReportTaskRunnerHeartbeatResponse`) are values, not objects. Each decoder creates its record and is the only code that writes it before returning it, so no aliasing of them is modelled.
- The fields of `DBSubnetGroup`, `ReportTaskRunnerHeartbeatResult` and `ListVolumeRecoveryPointsResult` are not part of this model. A freshly constructed object stands for the empty result.
- C# overloading: the two `Unmarshall` methods of `AddUploadBufferResultUnmarshaller` are `UnmarshallXml` (XML context) and `Unmarshall` (JSON context).
- The thread safety of the unsynchronised lazy singletons and the lazy getter. The model is single-threaded.
- `AmazonDirectConnectException`: it has only constructors that forward to `AmazonServiceException`, which is not part of this model. It has no logic of its own.
- Service-side behaviour described in documentation comments (volume status, ordering of listed items, item limits). It is remote behaviour, not client code.
- Depths are natural numbers. The runtime never reports a negative depth, and the C# `int` width plays no part in these comparisons.
