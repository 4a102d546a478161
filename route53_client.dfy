/**
 * Amazon.Route53.AmazonRoute53Client.ProcessRequestHandlers: the fix-up of a
 * finished request that removes the duplicated path segments produced when
 * the identifiers CreateHostedZone returns ("/hostedzone/Z...",
 * "/change/C...") are used as they are, and the matching duplicate in the
 * body of a change-resource-record-sets request.
 *
 * The request body is modelled as text; its UTF-8 decoding and re-encoding
 * are not part of this model. The base class's ProcessRequestHandlers, which
 * runs first, is not part of this model either and is taken to change nothing.
 */
module Route53 {
  import opened DotNetStrings

  const HostedZoneDuplicate: string := "/hostedzone//hostedzone/"
  const HostedZoneSegment: string := "/hostedzone/"
  const ChangeDuplicate: string := "/change//change/"
  const ChangeSegment: string := "/change/"
  const RrsetSuffix: string := "/rrset/"
  const QualifiedHostedZoneId: string := "<HostedZoneId>/hostedzone/"
  const HostedZoneIdTag: string := "<HostedZoneId>"

  /** The resource path after both de-duplications, hosted zone first. */
  function FixedResourcePath(path: string): string
  {
    var once := if Contains(path, HostedZoneDuplicate) then ReplaceAll(path, HostedZoneDuplicate, HostedZoneSegment) else path;
    if Contains(once, ChangeDuplicate) then ReplaceAll(once, ChangeDuplicate, ChangeSegment) else once
  }

  /** The body after the fix-up, given the already rewritten path. */
  function FixedContent(fixedPath: string, content: string): string
  {
    if EndsWith(fixedPath, RrsetSuffix) then
      if Contains(content, QualifiedHostedZoneId) then ReplaceAll(content, QualifiedHostedZoneId, HostedZoneIdTag) else content
    else content
  }

  /** The parts of IRequest this override reads or writes, and two that it leaves alone. */
  class Request {
    var resourcePath: string
    var content: string
    var httpMethod: string
    var headers: map<string, string>

    constructor (resourcePath: string, content: string, httpMethod: string, headers: map<string, string>)
      ensures this.resourcePath == resourcePath && this.content == content
      ensures this.httpMethod == httpMethod && this.headers == headers
    {
      this.resourcePath := resourcePath;
      this.content := content;
      this.httpMethod := httpMethod;
      this.headers := headers;
    }
  }

  class AmazonRoute53Client {

    constructor ()
    {
    }

    method ProcessRequestHandlers(request: Request)
      modifies request`resourcePath, request`content
      ensures request.resourcePath == FixedResourcePath(old(request.resourcePath))
      ensures request.content == FixedContent(request.resourcePath, old(request.content))
      ensures request.httpMethod == old(request.httpMethod) && request.headers == old(request.headers)
    {
      if Contains(request.resourcePath, HostedZoneDuplicate) {
        request.resourcePath := ReplaceAll(request.resourcePath, HostedZoneDuplicate, HostedZoneSegment);
      }
      if Contains(request.resourcePath, ChangeDuplicate) {
        request.resourcePath := ReplaceAll(request.resourcePath, ChangeDuplicate, ChangeSegment);
      }
      if EndsWith(request.resourcePath, RrsetSuffix) {
        var content := request.content;
        if Contains(content, QualifiedHostedZoneId) {
          content := ReplaceAll(content, QualifiedHostedZoneId, HostedZoneIdTag);
        }
        request.content := content;
      }
    }
  }

  /** A path with neither duplicate that does not end in "/rrset/" leaves
      both the path and the body as they were. */
  lemma CleanRequestUnchanged(path: string, content: string)
    requires !Contains(path, HostedZoneDuplicate) && !Contains(path, ChangeDuplicate) && !EndsWith(path, RrsetSuffix)
    ensures FixedResourcePath(path) == path
    ensures FixedContent(FixedResourcePath(path), content) == content
  {
  }

  /** The Contains guards make no difference: the path is the hosted-zone
      replacement followed by the change replacement, each over every
      occurrence found left to right. */
  lemma FixedResourcePathIsTwoReplacements(path: string)
    ensures FixedResourcePath(path)
            == ReplaceAll(ReplaceAll(path, HostedZoneDuplicate, HostedZoneSegment), ChangeDuplicate, ChangeSegment)
  {
    if !Contains(path, HostedZoneDuplicate) {
      ReplaceAllAbsent(path, HostedZoneDuplicate, HostedZoneSegment);
    }
    var once := ReplaceAll(path, HostedZoneDuplicate, HostedZoneSegment);
    if !Contains(once, ChangeDuplicate) {
      ReplaceAllAbsent(once, ChangeDuplicate, ChangeSegment);
    }
  }

  /** The rewritten path is never longer than the original, and it is
      shorter exactly when the original holds one of the two duplicates. */
  lemma FixedResourcePathShrinks(path: string)
    ensures |FixedResourcePath(path)| <= |path|
    ensures |FixedResourcePath(path)| < |path| <==> Contains(path, HostedZoneDuplicate) || Contains(path, ChangeDuplicate)
  {
    ReplaceAllLength(path, HostedZoneDuplicate, HostedZoneSegment);
    var once := if Contains(path, HostedZoneDuplicate) then ReplaceAll(path, HostedZoneDuplicate, HostedZoneSegment) else path;
    ReplaceAllLength(once, ChangeDuplicate, ChangeSegment);
  }

  /** The body is rewritten only when the rewritten path ends in "/rrset/",
      and then every "<HostedZoneId>/hostedzone/" becomes "<HostedZoneId>";
      a body without it keeps its text. */
  lemma FixedContentRewrite(fixedPath: string, content: string)
    ensures !EndsWith(fixedPath, RrsetSuffix) ==> FixedContent(fixedPath, content) == content
    ensures EndsWith(fixedPath, RrsetSuffix) ==>
              FixedContent(fixedPath, content) == ReplaceAll(content, QualifiedHostedZoneId, HostedZoneIdTag)
    ensures !Contains(content, QualifiedHostedZoneId) ==> FixedContent(fixedPath, content) == content
  {
    if !Contains(content, QualifiedHostedZoneId) {
      ReplaceAllAbsent(content, QualifiedHostedZoneId, HostedZoneIdTag);
    }
  }

  /** Every non-overlapping "/hostedzone//hostedzone/" of the path, found
      left to right, becomes "/hostedzone/"; then every "/change//change/" of
      that result becomes "/change/". */
  lemma FixedResourcePathByParts(path: string)
    ensures var zoneParts := Split(path, HostedZoneDuplicate);
            var once := Join(zoneParts, HostedZoneSegment);
            var changeParts := Split(once, ChangeDuplicate);
            && path == Join(zoneParts, HostedZoneDuplicate)
            && (forall k :: 0 <= k < |zoneParts| ==> !Contains(zoneParts[k], HostedZoneDuplicate))
            && once == Join(changeParts, ChangeDuplicate)
            && (forall k :: 0 <= k < |changeParts| ==> !Contains(changeParts[k], ChangeDuplicate))
            && FixedResourcePath(path) == Join(changeParts, ChangeSegment)
  {
    FixedResourcePathIsTwoReplacements(path);
    ReplaceAllByParts(path, HostedZoneDuplicate, HostedZoneSegment);
    ReplaceAllByParts(ReplaceAll(path, HostedZoneDuplicate, HostedZoneSegment), ChangeDuplicate, ChangeSegment);
  }

  /** In the "/rrset/" branch the body's parts between occurrences of
      "<HostedZoneId>/hostedzone/", none of which contains it, are joined
      again with "<HostedZoneId>". */
  lemma FixedContentByParts(fixedPath: string, content: string)
    requires EndsWith(fixedPath, RrsetSuffix)
    ensures var parts := Split(content, QualifiedHostedZoneId);
            && content == Join(parts, QualifiedHostedZoneId)
            && (forall k :: 0 <= k < |parts| ==> !Contains(parts[k], QualifiedHostedZoneId))
            && FixedContent(fixedPath, content) == Join(parts, HostedZoneIdTag)
  {
    FixedContentRewrite(fixedPath, content);
    ReplaceAllByParts(content, QualifiedHostedZoneId, HostedZoneIdTag);
  }

  /** One pass removes one duplication only: a path with the hosted-zone
      segment three times in a row ("/hostedzone//hostedzone//hostedzone/Z1")
      still has a duplicate afterwards ("/hostedzone//hostedzone/Z1"). */
  lemma TripleSegmentKeepsDuplicate()
    ensures FixedResourcePath(HostedZoneDuplicate + HostedZoneSegment + "Z1") == HostedZoneDuplicate + "Z1"
    ensures Contains(FixedResourcePath(HostedZoneDuplicate + HostedZoneSegment + "Z1"), HostedZoneDuplicate)
  {
    var rest := HostedZoneSegment + "Z1";
    var s := HostedZoneDuplicate + rest;
    var once := HostedZoneDuplicate + "Z1";
    assert HostedZoneDuplicate + HostedZoneSegment + "Z1" == s;
    assert s[..|HostedZoneDuplicate|] == HostedZoneDuplicate && s[|HostedZoneDuplicate|..] == rest;
    assert ReplaceAll(s, HostedZoneDuplicate, HostedZoneSegment) == once by {
      assert ReplaceAll(rest, HostedZoneDuplicate, HostedZoneSegment) == rest;
      assert HostedZoneDuplicate == HostedZoneSegment + HostedZoneSegment;
      assert HostedZoneSegment + rest == once;
    }
    assert !Contains(once, ChangeDuplicate) by {
      assert 'g' in ChangeDuplicate;
      assert 'g' !in HostedZoneDuplicate && 'g' !in "Z1";
      MissingCharNotContained(once, ChangeDuplicate, 'g');
    }
    assert once[..|HostedZoneDuplicate|] == HostedZoneDuplicate;
  }
}
