/**
 * `ensure_bucket`: the shape of the CreateBucket request, and which answers
 * of the storage service let the pipeline go on.
 */
module Provisioning {
  import opened Wrappers

  /** The region in which CreateBucket must be sent without a location constraint. */
  const DefaultRegion: string := "us-east-1"

  /** The error codes that mean the bucket is already there. */
  const ToleratedCodes: set<string> := {"BucketAlreadyOwnedByYou", "BucketAlreadyExists"}

  datatype CreateBucketRequest = CreateBucketRequest(bucket: string, locationConstraint: Option<string>)

  /** The `Error` member of a ClientError's response; each level may be missing. */
  datatype ErrorBody = ErrorBody(code: Option<string>)
  datatype ErrorResponse = ErrorResponse(error: Option<ErrorBody>)

  /** What the service answers to CreateBucket. */
  datatype CreateOutcome = Created | Rejected(response: ErrorResponse)

  /** How the bucket came to be there when provisioning goes on. */
  datatype BucketStatus = NewlyCreated | AlreadyPresent

  /**
   * The request `ensure_bucket` sends: a location constraint naming the
   * region, except in the default region, where the service refuses one.
   */
  function CreateRequest(bucket: string, region: string): (req: CreateBucketRequest)
    ensures req.bucket == bucket
    ensures req.locationConstraint.None? <==> region == DefaultRegion
    ensures req.locationConstraint.Some? ==> req.locationConstraint.value == region
  {
    if region == DefaultRegion then CreateBucketRequest(bucket, None)
    else CreateBucketRequest(bucket, Some(region))
  }

  /** `e.response.get("Error", {}).get("Code", "")`. */
  function ErrorCode(resp: ErrorResponse): (code: string)
    ensures resp.error.None? ==> code == ""
    ensures resp.error.Some? && resp.error.value.code.None? ==> code == ""
    ensures resp.error.Some? && resp.error.value.code.Some? ==> code == resp.error.value.code.value
  {
    match resp.error
    case None => ""
    case Some(body) =>
      match body.code
      case None => ""
      case Some(c) => c
  }

  /**
   * `ensure_bucket` with the storage service as a function from request to
   * answer: it goes on when the bucket is created or when the answer's code
   * says the bucket already exists, and stops with that code otherwise.
   */
  function EnsureBucket(bucket: string, region: string, service: CreateBucketRequest -> CreateOutcome)
    : (r: Result<BucketStatus, Fatal>)
    ensures service(CreateRequest(bucket, region)).Created? ==> r == Success(NewlyCreated)
    ensures service(CreateRequest(bucket, region)).Rejected? ==>
      var code := ErrorCode(service(CreateRequest(bucket, region)).response);
      (r.Success? <==> code in ToleratedCodes) &&
      (r.Success? ==> r.value == AlreadyPresent) &&
      (r.Failure? ==> r.error == CannotCreateBucket(code))
  {
    match service(CreateRequest(bucket, region))
    case Created => Success(NewlyCreated)
    case Rejected(resp) =>
      var code := ErrorCode(resp);
      if code == "BucketAlreadyOwnedByYou" || code == "BucketAlreadyExists" then Success(AlreadyPresent)
      else Failure(CannotCreateBucket(code))
  }

  /** Whether provisioning goes on depends only on the answer's code, never on the bucket or region. */
  lemma OutcomeDependsOnlyOnCode(b1: string, r1: string, s1: CreateBucketRequest -> CreateOutcome,
                                 b2: string, r2: string, s2: CreateBucketRequest -> CreateOutcome)
    requires s1(CreateRequest(b1, r1)).Rejected? && s2(CreateRequest(b2, r2)).Rejected?
    requires ErrorCode(s1(CreateRequest(b1, r1)).response) == ErrorCode(s2(CreateRequest(b2, r2)).response)
    ensures EnsureBucket(b1, r1, s1) == EnsureBucket(b2, r2, s2)
  {
  }

  /** A rejection that carries no code at all is fatal. */
  lemma MissingCodeIsFatal(bucket: string, region: string, service: CreateBucketRequest -> CreateOutcome)
    requires service(CreateRequest(bucket, region)) == Rejected(ErrorResponse(None))
    ensures EnsureBucket(bucket, region, service) == Failure(CannotCreateBucket(""))
  {
  }
}
