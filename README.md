# Blob storage gateway: upload renaming, delete, read grants and the quarantine trigger

This project models the decision logic of a small ASP.NET service that fronts
an Azure Blob Storage account, and of the Azure Function that scans new blobs
with VirusTotal. The storage account is an abstract store, a set of containers
and a map from `(container, name)` to bytes. VirusTotal is a scripted oracle:
the report already cached for the content, the resource id a submission returns,
and the reports returned by successive polls.

- `common.dfy` (`Common`): bytes, `Option` for C# null, `Result`, `IsNullOrEmpty`.
- `naming.dfy` (`Naming`): .NET's `Path.GetFileName`, `GetFileNameWithoutExtension`
  and `GetExtension` on the last path segment and the last `.`, and the renamed
  blob name `<stem>_<guid><ext>`.
- `storage.dfy` (`Storage`): the store as a value (`StoreState`, with `Put`,
  `Remove`, `AddContainer`), and the shared backend `BlobStore`, a class whose
  methods are the SDK calls the code makes (exists, upload with overwrite,
  delete-if-exists, create-container-if-not-exists).
- `blob_service.dfy` (`Services`): `BlobService` with upload and its collision renaming,
  delete, and the signed read URL. `UploadedBlob` specifies upload on values.
- `virus_total.dfy` (`VirusTotal`): the scan (API-key check, cached report,
  submit then poll), the quarantine copy and the trigger's `Run`.
- `blob_controller.dfy` (`Controllers`): `BlobController` with GET, POST upload and DELETE.

Inputs the code takes from elsewhere are parameters of the model:
- the GUID from `Guid.NewGuid()`;
- the two `DateTimeOffset.UtcNow` readings, in 100 ns ticks;
- the environment variables `VIRUSTOTAL_API_KEY` and `BLOB_STORAGE_CONNECTION_STRING`
  (as `Option<string>`, `None` being null);
- the SDK's blob URI builder and the SAS signer, as opaque function-valued fields
  of `BlobService`;
- the oracle's answers.

Behaviour of the code worth noting, which the model keeps:
- The upload action (`BlobController.cs:27-42`) does not scan before storing. The model's
  `UploadVideo` has no oracle input and changes only the store.
- The trigger copies a non-clean blob into `quarantine` and never deletes it from
  `uploads` (`ScanBlobFunction.cs:85-94`). `Triggered` never removes a key.
- The trigger watches the container `uploads` (`ScanBlobFunction.cs:11`), but the controller
  uploads to `flixblobstorage1`. So controller uploads never reach the trigger
  (`VideoUploadLeavesIntake`).
- A missing API key makes the scan return "not clean" with no distinct error.
  The trigger then copies the blob into quarantine (`MissingKeyQuarantines`).
- The read grant reads the clock twice (`BlobService.cs:27-28`). So it lasts one hour plus the
  time between the two readings. It is exactly one hour only when the readings coincide
  (`ReadGrantLastsOneHour`).
- The renamed name is built from the file-name part only. A name with a directory part,
  such as `dir/clip.mp4`, is renamed to `clip_<guid>.mp4` at the container root
  (`UniqueBlobNameIgnoresDirectory`, `RenameScenarioInDirectory`; the ensures of
  `UniqueBlobName` give that it holds no `/`). A file name ending in `.` has an empty extension,
  and the renaming loses that `.`.

## Model

| member | source | states |
|---|---|---|
| `Naming.FileName` | BlobStorageService/BlobStorageService/Services/BlobService.cs:62 | the file name is the suffix of the path after the last `/`, holds no `/`, and is preceded by a `/` when it is not the whole path |
| `Naming.FileNameWithoutExtension` | BlobStorageService/BlobStorageService/Services/BlobService.cs:62 | the stem is a prefix of the file name and holds no `/` |
| `Naming.Extension` | BlobStorageService/BlobStorageService/Services/BlobService.cs:62 | the extension is empty or a `.` followed by at least one character and no other `.`; it is a suffix of the file name and holds no `/` |
| `Naming.DirectoryPartIgnored` | BlobStorageService/BlobStorageService/Services/BlobService.cs:62 | the stem and extension of a path are those of its file name, whatever the directory part |
| `Naming.StemAndExtension` | BlobStorageService/BlobStorageService/Services/BlobService.cs:62 | stem then extension give back the file name; when the file name ends in `.` that `.` belongs to neither and the extension is empty |
| `Naming.UniqueBlobName` | BlobStorageService/BlobStorageService/Services/BlobService.cs:62 | with a well-formed GUID the renamed name holds no directory separator |
| `Naming.UniqueBlobNameDiffers` | BlobStorageService/BlobStorageService/Services/BlobService.cs:59-64 | with a well-formed GUID the renamed name differs from the original name, for every name |
| `Naming.UniqueBlobNameSplits` | BlobStorageService/BlobStorageService/Services/BlobService.cs:62 | splitting the renamed name gives the original stem with `_<guid>` appended and the original extension (file names not ending in `.`) |
| `Naming.RenameScenario` | BlobStorageService/BlobStorageService/Services/BlobService.cs:62 | `clip.mp4` is renamed to `clip_<guid>.mp4` |
| `Naming.UniqueBlobNameIgnoresDirectory` | BlobStorageService/BlobStorageService/Services/BlobService.cs:62 | renaming a path gives the same name as renaming its file name alone |
| `Naming.RenameScenarioInDirectory` | BlobStorageService/BlobStorageService/Services/BlobService.cs:62 | `dir/clip.mp4` is renamed to `clip_<guid>.mp4`, at the container root |
| `Storage.Put` | BlobStorageService/BlobStorageService/Services/BlobService.cs:66 | an overwriting put maps the key to the data, keeps containers, and leaves every other key as it was |
| `Storage.Remove` | BlobStorageService/BlobStorageService/Services/BlobService.cs:76 | delete-if-exists removes the key, leaves every other key, and changes nothing at all when the key is absent |
| `Storage.RemoveIdempotent` | BlobStorageService/BlobStorageService/Services/BlobService.cs:70-77 | deleting twice is deleting once |
| `Storage.BlobStore.Exists` | BlobStorageService/BlobStorageService/Services/BlobService.cs:59 | the exists check is true exactly when the key is stored |
| `Storage.BlobStore.Upload` | BlobStorageService/BlobStorageService/Services/BlobService.cs:66 | upload with overwrite fails exactly when the container is missing, and otherwise the new state is the put |
| `Storage.BlobStore.DeleteIfExists` | BlobStorageService/BlobStorageService/Services/BlobService.cs:76 | reports whether the key was there; the new state is the old one with the key removed |
| `Storage.BlobStore.CreateIfNotExists` | BlobStorageService/BlobStorageService/VirusTotal/ScanBlobFunction.cs:88 | reports whether the container was missing; afterwards it exists and no blob changed |
| `Services.UploadedBlob` | BlobStorageService/BlobStorageService/Services/BlobService.cs:50-68 | missing container: failure, store unchanged; free name: returns the name; taken name: returns `<stem>_<guid><ext>`; the content is stored under the returned name, every other key is unchanged, and on a collision the existing blob is byte-for-byte unchanged |
| `Services.SecondUploadKeepsFirst` | BlobStorageService/BlobStorageService/Services/BlobService.cs:56-67 | two uploads of one name: the first keeps the name and its bytes, the second lands under the renamed name |
| `Services.BlobService.UploadBlob` | BlobStorageService/BlobStorageService/Services/BlobService.cs:50-68 | the new store and the result are those of `UploadedBlob` on the old store |
| `Services.BlobService.DeleteBlob` | BlobStorageService/BlobStorageService/Services/BlobService.cs:70-77 | the new store is the old one with the key removed, absent or not |
| `Services.ReadGrant` | BlobStorageService/BlobStorageService/Services/BlobService.cs:22-32 | the grant names the container and blob, has resource `b`, Read as its only permission, starts at the first clock reading and lasts one hour plus the gap between the two readings |
| `Services.ReadGrantLastsOneHour` | BlobStorageService/BlobStorageService/Services/BlobService.cs:27-28 | with one clock value the grant expires exactly one hour after it starts |
| `Services.QueryStart` | BlobStorageService/BlobStorageService/Services/BlobService.cs:42 | finds the first `?` of a URL, where its query begins, or reports that there is none |
| `Services.BlobService.GenerateBlobReadSasUri` | BlobStorageService/BlobStorageService/Services/BlobService.cs:13-44 | the URL is exactly the blob URI, '?', and the signed read grant; when the URI has no '?' of its own, the URL's query begins right after it |
| `VirusTotal.FirstPresent` | BlobStorageService/BlobStorageService/VirusTotal/ScanBlobFunction.cs:63-71 | the index of a `Present` report with none before it, or that no report is `Present` |
| `VirusTotal.ScanVerdict` | BlobStorageService/BlobStorageService/VirusTotal/ScanBlobFunction.cs:38-73 | no API key gives not clean; clean only if some report read is `Present` with zero positives; with a key, still polling exactly when no report read is `Present`, so a verdict always rests on a `Present` report |
| `VirusTotal.CachedReportDecides` | BlobStorageService/BlobStorageService/VirusTotal/ScanBlobFunction.cs:51-56 | a `Present` cached report decides the verdict as `Positives == 0` |
| `VirusTotal.FirstPresentPollDecides` | BlobStorageService/BlobStorageService/VirusTotal/ScanBlobFunction.cs:60-71 | without a cached report, the first `Present` poll decides the verdict as `Positives == 0` |
| `VirusTotal.ScanFileWithVirusTotal` | BlobStorageService/BlobStorageService/VirusTotal/ScanBlobFunction.cs:38-73 | the outcome is `ScanVerdict`; no oracle call without a key; only the content lookup on a cache hit; otherwise lookup, one submission, then one poll by resource up to and including the first `Present` one |
| `VirusTotal.Quarantined` | BlobStorageService/BlobStorageService/VirusTotal/ScanBlobFunction.cs:75-97 | without a connection string nothing changes; otherwise the quarantine container exists and maps the name to the bytes, and every other key is unchanged |
| `VirusTotal.MoveToQuarantineContainer` | BlobStorageService/BlobStorageService/VirusTotal/ScanBlobFunction.cs:75-97 | the new store is `Quarantined` of the old one |
| `VirusTotal.Triggered` | BlobStorageService/BlobStorageService/VirusTotal/ScanBlobFunction.cs:10-36 | a verdict other than not-clean leaves the store unchanged; not clean quarantines; no key or container is ever removed, and only the quarantine key can change |
| `VirusTotal.TriggerKeepsOriginal` | BlobStorageService/BlobStorageService/VirusTotal/ScanBlobFunction.cs:24-34 | the blob in `uploads` that the trigger fired for is still there, byte for byte |
| `VirusTotal.MissingKeyQuarantines` | BlobStorageService/BlobStorageService/VirusTotal/ScanBlobFunction.cs:24-45 | without an API key (and with a connection string) the delivered bytes are copied to quarantine |
| `VirusTotal.Run` | BlobStorageService/BlobStorageService/VirusTotal/ScanBlobFunction.cs:10-36 | the outcome is the scan verdict, the oracle calls are those of the scan (none without a key, one on a cached report, otherwise report, submit and the polls up to the first present report), and the new store is `Triggered` of the old one |
| `Controllers.BlobController.GetVideoMetadata` | BlobStorageService/BlobStorageService/Controllers/BlobController.cs:17-25 | always 200 with a URL that is exactly the blob URI for `flixblobstorage1/name`, '?', and the signed read grant, whether or not the blob exists |
| `Controllers.BlobController.UploadVideo` | BlobStorageService/BlobStorageService/Controllers/BlobController.cs:27-42 | null, empty or non-`video/mp4` files are a 400 with the store unchanged; a valid file is uploaded to `flixblobstorage1` under its own name, answering with the stored name, or 500 if the container is missing |
| `Controllers.VideoUploadLeavesIntake` | BlobStorageService/BlobStorageService/Controllers/BlobController.cs:36-41 | an upload through the controller adds no blob to `uploads`, removes none, and leaves the bytes of every one unchanged |
| `Controllers.BlobController.DeleteBlob` | BlobStorageService/BlobStorageService/Controllers/BlobController.cs:44-49 | always 204; the request's container and name are deleted if present |

## Left out

- Storage connections: the trigger binds `uploads` through the `AzureWebJobsStorage` connection (`ScanBlobFunction.cs:11`), while quarantine (`ScanBlobFunction.cs:77`) and `BlobService` (`BlobService.cs:11`) use `BLOB_STORAGE_CONNECTION_STRING`. The model takes both to name one storage account, a single `BlobStore`; the connection string's value is only tested for null or empty, never used to choose an account.
- `VirusTotal.ScanFileWithVirusTotal`: the poll loop runs over a finite script of poll
  answers. When every poll is answered without a `Present` report, the outcome
  is `StillPolling`. The code would keep polling forever instead.
- The 10-second `Task.Delay` between polls, logging, `UseTLS` and stream copying are left
  out. They are timing and I/O.
- VirusTotal network failures and SDK exceptions other than an upload into a missing
  container are left out. The code handles none of them: they escape the call
  (500 in the controller; in the trigger the invocation fails without quarantine, and
  the Functions host's retries of a failed invocation are not modelled).
- A null connection string in `BlobService` (the SDK client constructor throws) is not
  modelled. Neither are `CloudStorageAccount.Parse` and account-key export.
- SAS signing and the SDK's URI building (including escaping) are opaque functions.
- The race between the exists check and the upload is left out, as is any interleaving
  of the controller with the trigger. Each operation is modelled as one sequential step.
- `Guid.NewGuid()` is a parameter. The code does not check that the renamed name is free.
  The model, like the code, overwrites it if it is taken.
- The content-hash cache that makes byte-identical content skip submission lives inside
  VirusTotal. The oracle script stands in for it.
- Path splitting is the Unix behaviour of .NET. On Windows, `\` and the volume `:` would
  also separate path segments.
- `DateTimeOffset` range overflow in `AddHours(1)` is not modelled.
- Request-body binding is not modelled: multipart parsing of the form file, and the 400 the
  framework answers for a missing DELETE body.
- `Program.cs` (dependency injection, configuration, HTTP pipeline) is not part of this
  model. Neither is `IBlobService.cs`, which holds signatures only; `BlobService` is used
  directly.
