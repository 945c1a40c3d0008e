/**
 * The object-storage backend as this service sees it: named containers and,
 * inside them, blobs addressed by `(container, name)`. `StoreState` is the
 * value of the backend at one moment; `BlobStore` is the shared backend that
 * the operations change in place, with one method per client call the code
 * makes (`ExistsAsync`, `UploadAsync` with overwrite, `DeleteIfExistsAsync`,
 * `CreateIfNotExistsAsync`).
 */
module Storage {

  import opened Common

  datatype BlobKey = BlobKey(container: string, name: string)

  datatype StoreState = StoreState(containers: set<string>, blobs: map<BlobKey, seq<byte>>)

  /** Every blob lives in a container that exists. */
  ghost predicate WellFormed(s: StoreState)
  {
    forall k | k in s.blobs :: k.container in s.containers
  }

  /** `s` and `t` hold the same blobs at every key other than `k`. */
  ghost predicate SameExcept(s: StoreState, t: StoreState, k: BlobKey)
  {
    && (forall k' | k' in s.blobs && k' != k :: k' in t.blobs && t.blobs[k'] == s.blobs[k'])
    && (forall k' | k' in t.blobs && k' != k :: k' in s.blobs)
  }

  /** Writing `data` at `k` with overwrite allowed, into a container that exists. */
  function Put(s: StoreState, k: BlobKey, data: seq<byte>): (t: StoreState)
    requires k.container in s.containers
    ensures t.containers == s.containers
    ensures k in t.blobs && t.blobs[k] == data
    ensures SameExcept(s, t, k)
    ensures WellFormed(s) ==> WellFormed(t)
  {
    StoreState(s.containers, s.blobs[k := data])
  }

  /** Removing `k` if it is there; an absent key leaves the store as it was. */
  function Remove(s: StoreState, k: BlobKey): (t: StoreState)
    ensures t.containers == s.containers
    ensures k !in t.blobs
    ensures SameExcept(s, t, k)
    ensures k !in s.blobs ==> t == s
    ensures WellFormed(s) ==> WellFormed(t)
  {
    StoreState(s.containers, s.blobs - {k})
  }

  /** Creating container `c` unless it exists already; no blob changes. */
  function AddContainer(s: StoreState, c: string): (t: StoreState)
    ensures t.containers == s.containers + {c}
    ensures t.blobs == s.blobs
    ensures WellFormed(s) ==> WellFormed(t)
  {
    StoreState(s.containers + {c}, s.blobs)
  }

  /** Removing a key twice is the same as removing it once. */
  lemma RemoveIdempotent(s: StoreState, k: BlobKey)
    ensures Remove(Remove(s, k), k) == Remove(s, k)
  {
  }

  /** The shared backend. */
  class BlobStore {
    var containers: set<string>
    var blobs: map<BlobKey, seq<byte>>

    function State(): StoreState
      reads this
    {
      StoreState(containers, blobs)
    }

    ghost predicate Valid()
      reads this
    {
      WellFormed(State())
    }

    constructor (initial: set<string>)
      ensures Valid() && State() == StoreState(initial, map[])
    {
      containers := initial;
      blobs := map[];
    }

    /** `BlobClient.ExistsAsync`: a blob in an absent container does not exist. */
    method Exists(container: string, name: string) returns (b: bool)
      requires Valid()
      ensures b <==> BlobKey(container, name) in State().blobs
      ensures b ==> container in State().containers
    {
      b := BlobKey(container, name) in blobs;
    }

    /**
     * `BlobClient.UploadAsync(content, overwrite: true)`: fails when the
     * container does not exist, and otherwise writes the blob whether or not
     * one is already there.
     */
    method Upload(container: string, name: string, data: seq<byte>) returns (ok: bool)
      requires Valid()
      modifies this
      ensures Valid()
      ensures ok <==> container in old(State()).containers
      ensures State() == if ok then Put(old(State()), BlobKey(container, name), data) else old(State())
    {
      ok := container in containers;
      if ok {
        blobs := blobs[BlobKey(container, name) := data];
      }
    }

    /**
     * `BlobClient.DeleteIfExistsAsync`: removes the blob if there is one; a
     * missing blob or a missing container is not an error.
     */
    method DeleteIfExists(container: string, name: string) returns (deleted: bool)
      requires Valid()
      modifies this
      ensures Valid()
      ensures deleted <==> BlobKey(container, name) in old(State()).blobs
      ensures State() == Remove(old(State()), BlobKey(container, name))
    {
      deleted := BlobKey(container, name) in blobs;
      blobs := blobs - {BlobKey(container, name)};
    }

    /** `BlobContainerClient.CreateIfNotExistsAsync`. */
    method CreateIfNotExists(container: string) returns (created: bool)
      requires Valid()
      modifies this
      ensures Valid()
      ensures created <==> container !in old(State()).containers
      ensures State() == AddContainer(old(State()), container)
    {
      created := container !in containers;
      containers := containers + {container};
    }
  }
}
