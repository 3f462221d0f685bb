/**
 * The resolved package tree that the license engine hands to the command-line
 * front end, and the small predicates the front end evaluates on its nodes.
 */
module Packages {
  import opened Wrappers

  /** A top-level manifest (package.json) value: a string, or anything whose `typeof` is not "string". */
  datatype ManifestValue = Text(text: string) | NonText

  /**
   * One node: the name its dependent declared, the manifest's version and its
   * other top-level fields, the license file the engine chose (if any), the
   * license it resolved, and the direct dependencies in declaration order.
   */
  datatype Package = Package(
    name: string,
    version: string,
    manifest: map<string, ManifestValue>,
    licenseFile: Option<string>,
    license: string,
    deps: seq<Package>)

  /** The engine's label for a license file whose text matched no known license. */
  const NoMatch := "nomatch"

  /** `info.licenseFile` is truthy: present and not the empty string. */
  predicate HasLicenseFile(p: Package)
  {
    p.licenseFile.Some? && p.licenseFile.value != ""
  }

  /** No license file was found, or the one found matched no known license. */
  predicate IsMissing(p: Package)
  {
    !HasLicenseFile(p) || p.license == NoMatch
  }

  /** `deps.some(isMissing)`. */
  predicate SomeMissing(ds: seq<Package>)
  {
    exists i :: 0 <= i < |ds| && IsMissing(ds[i])
  }

  /** `name + "@" + version`, the key of the flat listing. */
  function NameVersion(p: Package): string
  {
    p.name + "@" + p.version
  }

  /** Every node of the tree, each before its dependencies, earlier siblings first. */
  function Preorder(p: Package): seq<Package>
    decreases p, 1
  {
    [p] + PreorderAll(p.deps)
  }

  /** The preorders of `ds`, one after the other. */
  function PreorderAll(ds: seq<Package>): seq<Package>
    decreases ds, 0
  {
    if |ds| == 0 then []
    else PreorderAll(ds[..|ds| - 1]) + Preorder(ds[|ds| - 1])
  }
}
