/** The dependency record shared by the fingerprint and the dependency merge. */
module DependencySpecs {
  import opened Orders

  /** A byte string, one character per byte. */
  type Bytes = string

  datatype GitReference = Branch(name: Bytes) | Tag(name: Bytes) | Rev(name: Bytes)

  datatype Source = Registry | Git(url: Bytes, reference: GitReference) | Local(path: Bytes)

  datatype Spec = Spec(crateName: Bytes, version: Option<Bytes>, features: seq<Bytes>, defaultFeatures: bool,
                       optional: bool, package: Option<Bytes>, source: Source)

  function Normalized(s: Spec): Spec {
    s.(features := SortDedup(s.features))
  }
}
