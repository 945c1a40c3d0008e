/**
 * `BlobService`: upload with collision renaming, delete-if-exists, and the
 * read grant behind a signed blob URL, all against the shared `BlobStore`.
 */
module Services {

  import opened Common
  import opened Naming
  import opened Storage

  /** The `RequestFailedException` an upload into a missing container raises. */
  datatype StorageError = ContainerNotFound

  datatype UploadOutcome = UploadOutcome(store: StoreState, result: Result<string, StorageError>)

  /**
   * What `UploadBlobAsync` does to the store and returns: the blob name when
   * it is free, otherwise `<stem>_<guid><ext>`; in either case one overwriting
   * write of `content` under the returned name.
   */
  function UploadedBlob(s: StoreState, containerName: string, blobName: string,
                        content: seq<byte>, guid: string): (r: UploadOutcome)
    ensures containerName !in s.containers ==> r == UploadOutcome(s, Failure(ContainerNotFound))
    ensures containerName in s.containers ==>
      && r.result.Success?
      && (BlobKey(containerName, blobName) !in s.blobs ==> r.result.value == blobName)
      && (BlobKey(containerName, blobName) in s.blobs ==> r.result.value == UniqueBlobName(blobName, guid))
      && r.store.containers == s.containers
      && BlobKey(containerName, r.result.value) in r.store.blobs
      && r.store.blobs[BlobKey(containerName, r.result.value)] == content
      && SameExcept(s, r.store, BlobKey(containerName, r.result.value))
    ensures ValidGuid(guid) && BlobKey(containerName, blobName) in s.blobs ==>
      && BlobKey(containerName, blobName) in r.store.blobs
      && r.store.blobs[BlobKey(containerName, blobName)] == s.blobs[BlobKey(containerName, blobName)]
    ensures WellFormed(s) ==> WellFormed(r.store)
  {
    if containerName !in s.containers then UploadOutcome(s, Failure(ContainerNotFound))
    else
      var taken := BlobKey(containerName, blobName) in s.blobs;
      var uniqueBlobName := if taken then UniqueBlobName(blobName, guid) else blobName;
      assert taken && ValidGuid(guid) ==> uniqueBlobName != blobName by {
        if taken && ValidGuid(guid) {
          UniqueBlobNameDiffers(blobName, guid);
        }
      }
      UploadOutcome(Put(s, BlobKey(containerName, uniqueBlobName), content), Success(uniqueBlobName))
  }

  /**
   * Uploading the same name twice: the first upload takes the name, the second
   * is stored under `<stem>_<guid><ext>`, and the first content stays in place.
   */
  lemma SecondUploadKeepsFirst(s: StoreState, containerName: string, blobName: string,
                               first: seq<byte>, second: seq<byte>, guid1: string, guid2: string)
    requires containerName in s.containers && BlobKey(containerName, blobName) !in s.blobs
    requires ValidGuid(guid2)
    ensures var u1 := UploadedBlob(s, containerName, blobName, first, guid1);
            var u2 := UploadedBlob(u1.store, containerName, blobName, second, guid2);
            && u1.result == Success(blobName)
            && u2.result == Success(UniqueBlobName(blobName, guid2))
            && u2.store.blobs[BlobKey(containerName, blobName)] == first
            && u2.store.blobs[BlobKey(containerName, UniqueBlobName(blobName, guid2))] == second
  {
  }

  /** 100-nanosecond ticks in one hour, the unit of `DateTimeOffset.AddHours`. */
  const TicksPerHour: int := 36_000_000_000

  datatype BlobSasPermission = Read | Add | Create | Write | Delete

  /** The fields of the `BlobSasBuilder` that the code sets. */
  datatype BlobSasGrant = BlobSasGrant(
    blobContainerName: string,
    blobName: string,
    resource: string,
    startsOn: int,
    expiresOn: int,
    permissions: set<BlobSasPermission>)

  /**
   * The read grant for one blob. The code reads `DateTimeOffset.UtcNow` twice,
   * once for the start and once for the expiry, so the grant lasts one hour
   * plus whatever passed between the two readings. Reading is the only
   * capability it ever carries.
   */
  function ReadGrant(containerName: string, blobName: string, startNow: int, expiryNow: int): (g: BlobSasGrant)
    ensures g.permissions == {Read}
    ensures g.resource == "b"
    ensures g.blobContainerName == containerName && g.blobName == blobName
    ensures g.startsOn == startNow
    ensures g.expiresOn - g.startsOn == TicksPerHour + (expiryNow - startNow)
  {
    BlobSasGrant(containerName, blobName, "b", startNow, expiryNow + TicksPerHour, {Read})
  }

  /** With a single clock reading the grant lasts exactly one hour. */
  lemma ReadGrantLastsOneHour(containerName: string, blobName: string, now: int)
    ensures var g := ReadGrant(containerName, blobName, now, now);
            g.expiresOn == g.startsOn + TicksPerHour
  {
  }

  /** The position of the first '?' in a URL, where its query begins. */
  function QueryStart(url: string): (r: Option<nat>)
    ensures r.Some? ==> r.value < |url| && url[r.value] == '?' && '?' !in url[..r.value]
    ensures r.None? ==> '?' !in url
  {
    if url == [] then None
    else if url[0] == '?' then Some(0)
    else
      match QueryStart(url[1..])
      case None => None
      case Some(i) =>
        assert url[..i + 1] == [url[0]] + url[1..][..i];
        Some(i + 1)
  }

  /**
   * `url` is the blob URI `base`, '?', then the SAS `token`; when `base` has
   * no '?' of its own, the URL's query begins right after it.
   */
  predicate SignedUrl(url: string, base: string, token: string)
  {
    && |url| == |base| + 1 + |token|
    && url[..|base|] == base && url[|base|] == '?' && url[|base| + 1..] == token
    && ('?' !in base ==> QueryStart(url) == Some(|base|))
  }

  class BlobService {
    const store: BlobStore
    /** `BlobClient.Uri`, built by the SDK from the account and the names. */
    const blobUri: (string, string) -> string
    /** `ToSasQueryParameters(credential).ToString()`: signing with the account key, kept opaque. */
    const sign: BlobSasGrant -> string

    constructor (store: BlobStore, blobUri: (string, string) -> string, sign: BlobSasGrant -> string)
      ensures this.store == store && this.blobUri == blobUri && this.sign == sign
    {
      this.store := store;
      this.blobUri := blobUri;
      this.sign := sign;
    }

    /**
     * `GenerateBlobReadSasUri`: the blob URI, '?', then the signed read grant.
     * No existence check is made. When the blob URI has no '?' of its own,
     * the URL's query begins right after it, so the URL splits back into that
     * URI and the token.
     */
    function GenerateBlobReadSasUri(containerName: string, blobName: string,
                                    startNow: int, expiryNow: int): (url: string)
      ensures SignedUrl(url, blobUri(containerName, blobName),
                        sign(ReadGrant(containerName, blobName, startNow, expiryNow)))
    {
      var base := blobUri(containerName, blobName);
      var token := sign(ReadGrant(containerName, blobName, startNow, expiryNow));
      var url := base + "?" + token;
      assert url[..|base|] == base && url[|base|] == '?' && url[|base| + 1..] == token;
      url
    }

    /**
     * `UploadBlobAsync`: checks whether the name is taken, renames with the
     * GUID if it is, and uploads with overwrite under the resulting name.
     */
    method UploadBlob(containerName: string, blobName: string, content: seq<byte>, guid: string)
      returns (r: Result<string, StorageError>)
      requires store.Valid()
      modifies store
      ensures store.Valid()
      ensures UploadOutcome(store.State(), r) == UploadedBlob(old(store.State()), containerName, blobName, content, guid)
    {
      var uniqueBlobName := blobName;
      var taken := store.Exists(containerName, blobName);
      if taken {
        uniqueBlobName := UniqueBlobName(blobName, guid);
      }
      var ok := store.Upload(containerName, uniqueBlobName, content);
      if ok {
        r := Success(uniqueBlobName);
      } else {
        r := Failure(ContainerNotFound);
      }
    }

    /** `DeleteBlobAsync`: delete-if-exists, so deleting an absent blob changes nothing. */
    method DeleteBlob(containerName: string, blobName: string)
      requires store.Valid()
      modifies store
      ensures store.Valid()
      ensures store.State() == Remove(old(store.State()), BlobKey(containerName, blobName))
    {
      var _ := store.DeleteIfExists(containerName, blobName);
    }
  }
}
