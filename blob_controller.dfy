/**
 * `BlobController`: the HTTP actions. GET issues a read URL for a blob in the
 * fixed video container, POST validates and uploads a video, DELETE deletes a
 * named blob. None of them calls the scanner.
 */
module Controllers {

  import opened Common
  import opened Storage
  import opened Services
  import VirusTotal

  /** The container every video is read from and uploaded to. */
  const VideoContainer: string := "flixblobstorage1"
  const AcceptedContentType: string := "video/mp4"
  const InvalidUploadMessage: string := "Please upload a valid MP4 file."

  /** The posted form file: `FileName`, `ContentType`, and its bytes (`Length` is their count). */
  datatype FormFile = FormFile(fileName: string, contentType: string, content: seq<byte>)

  datatype DeleteBlobRequest = DeleteBlobRequest(containerName: string, blobName: string)

  datatype ResponseBody = VideoUrl(url: string) | BlobName(name: string)

  /** The action results; an exception escaping the action is a 500. */
  datatype ActionResult =
    | Ok(body: ResponseBody)
    | BadRequest(message: string)
    | NoContent
    | InternalServerError

  /**
   * An upload through the controller writes only the video container, so no
   * blob of the container the quarantine trigger watches appears, disappears
   * or changes.
   */
  lemma VideoUploadLeavesIntake(s: StoreState, fileName: string, content: seq<byte>, guid: string)
    ensures var t := UploadedBlob(s, VideoContainer, fileName, content, guid).store;
            forall n ::
              && (BlobKey(VirusTotal.IntakeContainer, n) in t.blobs <==> BlobKey(VirusTotal.IntakeContainer, n) in s.blobs)
              && (BlobKey(VirusTotal.IntakeContainer, n) in s.blobs ==>
                    t.blobs[BlobKey(VirusTotal.IntakeContainer, n)] == s.blobs[BlobKey(VirusTotal.IntakeContainer, n)])
  {
  }

  class BlobController {
    const blobService: BlobService

    constructor (blobService: BlobService)
      ensures this.blobService == blobService
    {
      this.blobService := blobService;
    }

    /** `GetVideoMetadata`: a read URL for `name` in the video container, whether or not it exists. */
    function GetVideoMetadata(name: string, startNow: int, expiryNow: int): (r: ActionResult)
      ensures r.Ok? && r.body.VideoUrl?
      ensures SignedUrl(r.body.url, blobService.blobUri(VideoContainer, name),
                        blobService.sign(ReadGrant(VideoContainer, name, startNow, expiryNow)))
    {
      Ok(VideoUrl(blobService.GenerateBlobReadSasUri(VideoContainer, name, startNow, expiryNow)))
    }

    /**
     * `UploadVideo`: a missing or empty file, or any content type but
     * `video/mp4`, is a 400 and leaves the store alone; otherwise the file is
     * uploaded to the video container under its own name and the (possibly
     * renamed) stored name is returned.
     */
    method UploadVideo(file: Option<FormFile>, guid: string) returns (r: ActionResult)
      requires blobService.store.Valid()
      modifies blobService.store
      ensures blobService.store.Valid()
      ensures (file.None? || |file.value.content| == 0 || file.value.contentType != AcceptedContentType) ==>
        r == BadRequest(InvalidUploadMessage) && blobService.store.State() == old(blobService.store.State())
      ensures file.Some? && |file.value.content| > 0 && file.value.contentType == AcceptedContentType ==>
        var u := UploadedBlob(old(blobService.store.State()), VideoContainer,
                              file.value.fileName, file.value.content, guid);
        && blobService.store.State() == u.store
        && r == (if u.result.Success? then Ok(BlobName(u.result.value)) else InternalServerError)
    {
      if file.None? || |file.value.content| == 0 {
        return BadRequest(InvalidUploadMessage);
      }
      if file.value.contentType != AcceptedContentType {
        return BadRequest(InvalidUploadMessage);
      }
      var blobName := file.value.fileName;
      var stored := blobService.UploadBlob(VideoContainer, blobName, file.value.content, guid);
      match stored
      case Success(blobUniqueName) => r := Ok(BlobName(blobUniqueName));
      case Failure(_) => r := InternalServerError;
    }

    /** `DeleteBlob`: delete-if-exists on the request's container and name; always 204. */
    method DeleteBlob(request: DeleteBlobRequest) returns (r: ActionResult)
      requires blobService.store.Valid()
      modifies blobService.store
      ensures blobService.store.Valid()
      ensures r == NoContent
      ensures blobService.store.State()
              == Remove(old(blobService.store.State()), BlobKey(request.containerName, request.blobName))
    {
      blobService.DeleteBlob(request.containerName, request.blobName);
      r := NoContent;
    }
  }
}
