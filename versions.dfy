/** Semantic versions, as far as the manifest logic uses them: values with
    a strict total order. How a string parses into a version, and how a
    version prints, belong to the external Version library; the manifest
    logic receives both as function parameters. */
module Versions {
  import opened Wrappers

  datatype Version = Version(major: nat, minor: nat, patch: nat)

  /** `a < b`: by major, then minor, then patch number. */
  predicate Less(a: Version, b: Version) {
    || a.major < b.major
    || (a.major == b.major && a.minor < b.minor)
    || (a.major == b.major && a.minor == b.minor && a.patch < b.patch)
  }

  /** `Version(string)`: `None` when the string is not a version. */
  type Parser = string -> Option<Version>

  /** `Version.description`. */
  type Printer = Version -> string

  /** `Less` is a strict total order: irreflexive, transitive, and any two
      distinct versions are comparable. */
  lemma LessIsStrictTotalOrder()
    ensures forall a :: !Less(a, a)
    ensures forall a, b, c :: Less(a, b) && Less(b, c) ==> Less(a, c)
    ensures forall a, b :: a == b || Less(a, b) || Less(b, a)
    ensures forall a, b :: Less(a, b) ==> !Less(b, a)
  {
  }
}
