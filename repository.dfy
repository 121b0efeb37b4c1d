/** The repository object/reference model that the graph is projected from.
    It is the output of the repository-model builder, which is not part of
    this model: here it is plain input data. */
module Repository {

  /** A dictionary keyed by node identity, as the builder hands it over:
      `keys` is its iteration (insertion) order and `values` its contents. */
  datatype Dict<V> = Dict(keys: seq<string>, values: map<string, V>) {

    /** Every key is listed exactly once, and the listed keys are the keys. */
    ghost predicate Valid() {
      && (forall i, j :: 0 <= i < j < |keys| ==> keys[i] != keys[j])
      && (forall k :: k in values <==> k in keys)
    }
  }

  /** One tree entry: (child hash, entry name). */
  type TreeEntry = (string, string)

  /** The model: one collection per node category, plus the local head pair
      (head identifier, referenced hash). `blobs` is a set listed in its
      iteration order. */
  datatype GitModel = GitModel(
    blobs: seq<string>,
    trees: Dict<seq<TreeEntry>>,
    commits: Dict<seq<string>>,
    localBranches: Dict<string>,
    localHead: (string, string),
    remoteBranches: Dict<string>,
    remoteHeads: Dict<string>,
    remoteServers: Dict<seq<string>>,
    annotatedTags: Dict<string>,
    tags: Dict<string>,
    upstreams: Dict<string>)
  {
    ghost predicate Valid() {
      && (forall i, j :: 0 <= i < j < |blobs| ==> blobs[i] != blobs[j])
      && trees.Valid() && commits.Valid() && localBranches.Valid()
      && remoteBranches.Valid() && remoteHeads.Valid() && remoteServers.Valid()
      && annotatedTags.Valid() && tags.Valid() && upstreams.Valid()
    }
  }
}
