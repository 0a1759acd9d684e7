/**
  `uploadFileToS3`: the multipart POST it describes to the storage endpoint
  (the seven form fields taken from the upload parameters and the optional
  file part) and the rule that turns the transfer's outcome into the
  `(Bool, NSError?)` passed to the completion closure.
 */
module S3Upload {
  import opened Wrappers
  import opened UploadParams

  /** Where the file part's bytes come from. */
  datatype FileSource = FromPath(path: string) | FromData(bytes: seq<bv8>)

  /** One file part of a multipart/form-data body. */
  datatype FilePart = FilePart(name: string, fileName: string, mimeType: string, source: FileSource)

  /** The multipart request, abstracted from its wire format. */
  datatype UploadRequest = UploadRequest(
    httpMethod: string,
    url: string,
    fields: map<string, string>,
    part: Option<FilePart>)

  /** The names of the seven policy form fields. */
  const FormFieldNames: set<string> :=
    {"key", "acl", "X-Amz-Algorithm", "X-Amz-Signature", "X-Amz-Date", "X-Amz-Credential", "Policy"}

  /** The `parameters` dictionary built from the upload parameters. */
  function FormFields(p: S3UploadParams): map<string, string>
  {
    map[
      "key" := p.key,
      "acl" := p.acl,
      "X-Amz-Algorithm" := p.algorithm,
      "X-Amz-Signature" := p.signature,
      "X-Amz-Date" := p.date,
      "X-Amz-Credential" := p.credential,
      "Policy" := p.encodedPolicy]
  }

  /** Reads upload parameters back from a POST target and its form fields. */
  function ParamsFromForm(url: string, fields: map<string, string>): (r: Option<S3UploadParams>)
    ensures r.Some? <==> FormFieldNames <= fields.Keys
    ensures r.Some? ==> r.value.url == url
  {
    if FormFieldNames <= fields.Keys then
      assert "key" in FormFieldNames && "acl" in FormFieldNames && "X-Amz-Algorithm" in FormFieldNames
        && "X-Amz-Signature" in FormFieldNames && "X-Amz-Date" in FormFieldNames
        && "X-Amz-Credential" in FormFieldNames && "Policy" in FormFieldNames;
      Some(S3UploadParams(url, fields["key"], fields["acl"], fields["X-Amz-Algorithm"],
                          fields["X-Amz-Signature"], fields["X-Amz-Date"],
                          fields["X-Amz-Credential"], fields["Policy"]))
    else
      None
  }

  /** The form holds exactly the seven policy fields, and each carries its
      parameter unchanged: the parameters can be read back from the form and
      the POST target. */
  lemma FormFieldsRoundTrip(p: S3UploadParams)
    ensures FormFields(p).Keys == FormFieldNames
    ensures |FormFields(p)| == 7
    ensures ParamsFromForm(p.url, FormFields(p)) == Some(p)
  {
    assert FormFields(p).Keys == FormFieldNames;
    assert |FormFieldNames| == 7;
  }

  /** The body block: a file path wins over in-memory data, and with neither
      no file part is appended. The part is always named "file" with file
      name "attachment" and the caller's MIME type. */
  function FilePartFor(filePath: Option<string>, fileData: Option<seq<bv8>>, mimeType: string): Option<FilePart>
  {
    if filePath.Some? then
      Some(FilePart("file", "attachment", mimeType, FromPath(filePath.value)))
    else if fileData.Some? then
      Some(FilePart("file", "attachment", mimeType, FromData(fileData.value)))
    else
      None
  }

  /** The precedence between the two file sources and the fixed part naming. */
  lemma FilePartChoice(filePath: Option<string>, fileData: Option<seq<bv8>>, otherData: Option<seq<bv8>>, mimeType: string)
    ensures FilePartFor(filePath, fileData, mimeType).Some? <==> filePath.Some? || fileData.Some?
    ensures filePath.Some? ==> FilePartFor(filePath, fileData, mimeType) == FilePartFor(filePath, otherData, mimeType)
    ensures filePath.Some? ==> FilePartFor(filePath, fileData, mimeType).value.source == FromPath(filePath.value)
    ensures filePath.None? && fileData.Some? ==>
      FilePartFor(filePath, fileData, mimeType).value.source == FromData(fileData.value)
    ensures FilePartFor(filePath, fileData, mimeType).Some? ==>
      var part := FilePartFor(filePath, fileData, mimeType).value;
      part.name == "file" && part.fileName == "attachment" && part.mimeType == mimeType
  {
  }

  /** The request `uploadFileToS3` hands to the transfer: a POST to the
      parameters' URL with the policy fields and the chosen file part. */
  function UploadRequestFor(filePath: Option<string>, fileData: Option<seq<bv8>>, mimeType: string,
                            p: S3UploadParams): UploadRequest
  {
    UploadRequest("POST", p.url, FormFields(p), FilePartFor(filePath, fileData, mimeType))
  }

  /** The request carries the parameters losslessly whatever the file source,
      and a request is built even when there is no file part. */
  lemma UploadRequestCarriesParams(filePath: Option<string>, fileData: Option<seq<bv8>>, mimeType: string,
                                   p: S3UploadParams)
    ensures UploadRequestFor(filePath, fileData, mimeType, p).httpMethod == "POST"
    ensures ParamsFromForm(UploadRequestFor(filePath, fileData, mimeType, p).url,
                           UploadRequestFor(filePath, fileData, mimeType, p).fields) == Some(p)
    ensures UploadRequestFor(filePath, fileData, mimeType, p).part.None? <==> filePath.None? && fileData.None?
  {
    FormFieldsRoundTrip(p);
  }

  /** What the completion closure receives. */
  datatype Completion<E> = Completion(success: bool, error: Option<E>)

  /** The upload task's completion handler: any transport error means
      failure and is passed on; otherwise success with no error. */
  function CompletionFor<E>(transportError: Option<E>): (c: Completion<E>)
    ensures c.success <==> transportError.None?
    ensures c.error == transportError
    ensures c.success <==> c.error.None?
  {
    if transportError.Some? then Completion(false, transportError) else Completion(true, None)
  }
}
