# Yep S3 upload parameters and upload request, in Dafny

This project models the upload workflow of the Yep chat client
(`Yep/Services/YepStorageService.swift`): the client asks its API for signed
S3 upload parameters (a private variant for message attachments, a public one
for avatars), decodes the loosely typed JSON answer into an `S3UploadParams`
value, and posts a multipart form with those parameters and the file to the
storage bucket, reporting success or failure to a completion closure.

Modules:

- `Wrappers` — `Option`, Swift's optional.
- `JsonValue` — the decoded JSON (`JSONDictionary`) and the Swift casts
  `as? String`, `as? JSONDictionary`, `as? [JSONDictionary]`.
- `UploadParams` — the `S3UploadParams` struct; `ParsedParams`, the function
  that says what the `parse` closure returns; `Parse`, the closure itself as a
  method with its nested loops and four optional accumulators, proved equal to
  `ParsedParams`; and lemmas that state the closure's success and failure
  boundaries directly on the raw JSON (the "last condition dictionary holding
  a key wins" rule, non-string overrides, irrelevance of other keys, and a
  round trip through the S3 POST-policy layout).
- `S3Upload` — the seven form fields, the file-part choice and the completion
  rule of `uploadFileToS3`.
- `UploadParamsClient` — the endpoint each variant requests and which failure
  handler receives a failure.

The inner loop of `parse` walks a Swift dictionary, whose iteration order is
unspecified; `Parse` therefore picks each next key arbitrarily, and its
postcondition holds for every order.

The parser accepts empty strings in all eight fields: the source checks only
that each value is a string. An empty conditions array makes `parse` fail,
because the four accumulators then stay nil, not because of a separate check.

## Model

| member | source | states |
|---|---|---|
| `JsonValue.AsDictionaryArray` | Yep/Services/YepStorageService.swift:172 | `as? [JSONDictionary]` succeeds exactly on an array all of whose elements are dictionaries, and yields those dictionaries in order |
| `UploadParams.LastOccurrence` | Yep/Services/YepStorageService.swift:179-194 | the index found holds the key and no later condition dictionary does; no index exactly when no dictionary holds the key |
| `UploadParams.Parse` | Yep/Services/YepStorageService.swift:162-203 | the closure's nested loops over the conditions and each dictionary's entries, in any entry order, return exactly `ParsedParams(data)` |
| `UploadParams.AccumulatedStep` | Yep/Services/YepStorageService.swift:179-193 | visiting one more condition dictionary overwrites an accumulator with `value as? String` when the dictionary holds its key, and leaves it unchanged otherwise |
| `UploadParams.EnvelopeShape` | Yep/Services/YepStorageService.swift:165-172 | the `if let` casts succeed exactly when "options" is a dictionary with string `encoded_policy`, `key`, `signature`, `url` and a dictionary `policy` whose `conditions` is an array of dictionaries; the bound values are those strings and dictionaries unchanged |
| `UploadParams.AccumulatedIsLast` | Yep/Services/YepStorageService.swift:179-189 | an accumulator ends up holding string `v` exactly when the last condition dictionary holding its key maps it to the string `v` |
| `UploadParams.AccumulatedNone` | Yep/Services/YepStorageService.swift:179-189 | an accumulator ends up nil exactly when no dictionary holds its key or the last one that does maps it to a non-string, which overrides any earlier string |
| `UploadParams.LastIsUnique` | Yep/Services/YepStorageService.swift:179-189 | the last value for a key is unique, so the last-write-wins result is well defined |
| `UploadParams.ParsedParamsSpec` | Yep/Services/YepStorageService.swift:165-198 | `parse` returns `p` exactly when the document is well shaped, `url`, `key`, `signature`, `encodedPolicy` are the strings under "options" and `acl`, `credential`, `algorithm`, `date` are the strings of the last condition dictionaries holding `acl`, `x-amz-credential`, `x-amz-algorithm`, `x-amz-date` |
| `UploadParams.ParseFailures` | Yep/Services/YepStorageService.swift:165-202 | `parse` returns nil for a document that is not well shaped, and for one where some condition key is in no dictionary or its last occurrence is not a string; no partial result exists |
| `UploadParams.EmptyConditionsFail` | Yep/Services/YepStorageService.swift:172-202 | an empty conditions array makes `parse` return nil |
| `UploadParams.AccumulatedOnlyReadsKey` | Yep/Services/YepStorageService.swift:180-192 | an accumulator depends only on the entries for its own key: condition lists that agree on that key give the same value |
| `UploadParams.UnrecognisedKeysIgnored` | Yep/Services/YepStorageService.swift:179-197 | condition keys other than the four recognised ones do not affect the result: documents agreeing on the "options" strings and on the four keys entry by entry parse alike |
| `UploadParams.ParsePolicyDocument` | Yep/Services/YepStorageService.swift:162-203 | every parameter set, empty strings included, is recovered by `parse` from the S3 POST-policy layout that carries it |
| `S3Upload.FormFieldsRoundTrip` | Yep/Services/YepStorageService.swift:42-50 | the form holds exactly the seven keys `key`, `acl`, `X-Amz-Algorithm`, `X-Amz-Signature`, `X-Amz-Date`, `X-Amz-Credential`, `Policy`, each carrying its parameter, so the parameters can be read back from the form and the POST target |
| `S3Upload.FilePartChoice` | Yep/Services/YepStorageService.swift:52-61 | a file part exists exactly when a path or data is given; a path wins over data (the data is then ignored); data is used only without a path; the part is named "file" with file name "attachment" and the caller's MIME type |
| `S3Upload.UploadRequestCarriesParams` | Yep/Services/YepStorageService.swift:42-63 | the request is a POST to the parameters' URL carrying all parameters losslessly, and is built even when there is no file part |
| `S3Upload.CompletionFor` | Yep/Services/YepStorageService.swift:72-83 | the completion gets `(false, error)` exactly when the transport error is non-nil and `(true, nil)` otherwise; success holds exactly when no error is passed |
| `UploadParamsClient.EndpointPaths` | Yep/Services/YepStorageService.swift:121-153 | the private variant asks `/api/v1/attachments/s3_upload_form_fields`, the public one `/api/v1/attachments/s3_upload_public_form_fields`; both share a prefix and differ |
| `UploadParamsClient.VariantsDifferOnlyInPath` | Yep/Services/YepStorageService.swift:205 | both variants send a GET with no request parameters, differing only in the path |
| `UploadParamsClient.SelectHandler` | Yep/Services/YepStorageService.swift:207-211 | a supplied failure handler is used in preference to the default one |
| `UploadParamsClient.FetchFailureGoesToSupplied` | Yep/Services/YepStorageService.swift:123-128 | through either variant's wrapping closure, a failure reaches the caller's handler when one is supplied and the default handler otherwise |

## Left out

- The multipart wire format, `AFHTTPRequestSerializer`, `AFURLSessionManager`, `NSProgress` and `uploadTask.resume()`: a foreign networking library and asynchronous I/O. The request is modelled as a field map plus an optional file part; the transfer itself is a parameter (its error) of `CompletionFor`.
- When the completion closure runs (asynchronously, on the transport's thread) is not modelled; only what it receives.
- Reading the file at the given path (`NSURL(fileURLWithPath:)`, `appendPartWithFileURL` with `error: nil`): file-system I/O; the path is kept as a value. `FilePartFor` describes the part the code asks for; if the path cannot be read, the real request has no file part and the data is not used either (the `else if` at line 59 gives no fallback).
- Building the request with `multipartFormRequestWithMethod(…, error: nil)` when `url` does not parse as a URL: the error is discarded by the code; `UploadRequestFor` describes the request the code asks for, not what the serializer does with an unparsable URL.
- `generateBoundaryString`: depends on `NSUUID` randomness.
- `NSMutableData.appendString`: a thin wrapper over Foundation's UTF-8 encoding.
- `authJsonResource`, `apiRequest`, `baseURL`, `Reason` and `defaultFailureHandler` are not part of this model; failure handlers are an abstract type, and how a nil result of `parse` is reported is decided inside `apiRequest`, so nothing is stated about it.
- JSON numbers, booleans and null are one value `JOther`: no cast in the parser accepts any of them.
- Error logging with `println`.
- `Yep/ViewControllers/CustomNavigationBar/CustomNavigationBarViewController.swift`: navigation-bar styling with no algorithmic content.
- Non-emptiness of the eight parameters: the code checks only that each value is a string (lines 167-170, 196), so empty strings are accepted; the model does the same.
