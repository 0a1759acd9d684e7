/**
  `s3PrivateUploadParams`, `s3PublicUploadParams` and the request part of
  `s3UploadParams`: which endpoint is asked for upload parameters, and which
  failure handler ends up receiving a failure.
 */
module UploadParamsClient {
  import opened Wrappers

  /** Private parameters are for message attachments, public ones for avatars. */
  datatype Scope = Private | Public

  const PathPrefix: string := "/api/v1/attachments/s3_upload_"

  /** The endpoint each variant passes to `s3UploadParams`. */
  function EndpointPath(scope: Scope): string
  {
    match scope
    case Private => "/api/v1/attachments/s3_upload_form_fields"
    case Public => "/api/v1/attachments/s3_upload_public_form_fields"
  }

  /** Both endpoints live under the same prefix, and the two variants ask
      different endpoints. */
  lemma EndpointPaths(a: Scope, b: Scope)
    ensures PathPrefix <= EndpointPath(a)
    ensures EndpointPath(a) == EndpointPath(b) <==> a == b
  {
    if a != b {
      assert EndpointPath(Private)[|PathPrefix|] != EndpointPath(Public)[|PathPrefix|];
    }
  }

  /** The authenticated JSON resource `s3UploadParams` requests. */
  datatype ResourceRequest = ResourceRequest(httpMethod: string, path: string, parameters: map<string, string>)

  function CredentialRequest(scope: Scope): ResourceRequest
  {
    ResourceRequest("GET", EndpointPath(scope), map[])
  }

  /** The two variants send the same request apart from the path: a GET
      with no parameters. */
  lemma VariantsDifferOnlyInPath(a: Scope, b: Scope)
    ensures CredentialRequest(a).(path := "") == CredentialRequest(b).(path := "")
    ensures CredentialRequest(a).httpMethod == "GET" && CredentialRequest(a).parameters == map[]
    ensures CredentialRequest(a) == CredentialRequest(b) <==> a == b
  {
    EndpointPaths(a, b);
  }

  /** `if let failureHandler = failureHandler { … } else { defaultFailureHandler … }` */
  function SelectHandler<H>(supplied: Option<H>, fallback: H): (h: H)
    ensures supplied.Some? ==> h == supplied.value
    ensures supplied.None? ==> h == fallback
  {
    match supplied
    case Some(handler) => handler
    case None => fallback
  }

  /** A failure handler as seen by `s3UploadParams`: either one it was given
      directly, or the wrapping closure that the private and public variants
      always pass, which itself chooses between the caller's optional handler
      and the default. */
  datatype Handler<H> = Given(handler: H) | Wrapper(callers: Option<H>)

  /** The handler that finally runs when a failure is reported to `h`. */
  function Receiver<H>(h: Handler<H>, fallback: H): H
  {
    match h
    case Given(handler) => handler
    case Wrapper(callers) => SelectHandler(callers, fallback)
  }

  /** The handler that receives a failure of the private or public variant:
      the variant passes its wrapper (never nil) to `s3UploadParams`, which
      hands it to the network layer, and the wrapper then selects. The two
      variants' wrappers (YepStorageService.swift lines 123-128 and 143-148)
      are textually identical, so `scope` does not enter the result. */
  function FetchFailureReceiver<H>(scope: Scope, supplied: Option<H>, fallback: H): H
  {
    Receiver(SelectHandler(Some(Wrapper(supplied)), Given(fallback)), fallback)
  }

  /** Through either variant, a supplied handler receives every failure and
      the default handler is used only when none is supplied, as if the
      caller's handler had been given to `s3UploadParams` directly. */
  lemma FetchFailureGoesToSupplied<H>(scope: Scope, supplied: Option<H>, fallback: H)
    ensures FetchFailureReceiver(scope, supplied, fallback) == SelectHandler(supplied, fallback)
    ensures supplied.Some? ==> FetchFailureReceiver(scope, supplied, fallback) == supplied.value
    ensures supplied.None? ==> FetchFailureReceiver(scope, supplied, fallback) == fallback
  {
  }
}
