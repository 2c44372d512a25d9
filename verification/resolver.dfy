/** The plugin's Resolver: one candidate per descriptor, and the package record
    built from the fetched manifest. */
module PluginResolver {
  import opened Wrappers
  import opened PluginUtils

  datatype Ident = Ident(scope: Option<string>, name: string)
  datatype Descriptor = Descriptor(ident: Ident, range: string)
  datatype Locator = Locator(ident: Ident, reference: string)

  /** `structUtils.makeLocator(ident, reference)`. */
  function MakeLocator(ident: Ident, reference: string): Locator
  {
    Locator(ident, reference)
  }

  /** `normalizeLocator`: rebuilding a locator from itself and its reference. */
  function NormalizeLocator(locator: Locator): (r: Locator)
    ensures r == locator
  {
    MakeLocator(locator.ident, locator.reference)
  }

  /** `getCandidates`: exactly one locator, for the same package, whose
      reference is the descriptor's range. */
  function GetCandidates(d: Descriptor): (r: seq<Locator>)
    ensures |r| == 1 && r[0].ident == d.ident && r[0].reference == d.range
  {
    [MakeLocator(d.ident, d.range)]
  }

  /** A descriptor the resolver accepts yields a locator the fetcher accepts.
      It follows from the contracts of `GetCandidates` and `NormalizeLocator`
      and records the hand-off from `supportsDescriptor` to `supportsLocator`
      and the fetcher's `supports`, which test the same protocol prefix. */
  lemma CandidateFetchable(d: Descriptor)
    requires Supports(d.range)
    ensures forall l :: l in GetCandidates(d) ==> Supports(l.reference) && Supports(NormalizeLocator(l).reference)
  {
  }

  /** The parts of the fetched `package.json` the record copies. */
  datatype Manifest = Manifest(
    version: Option<string>,
    languageName: Option<string>,
    dependencies: map<string, string>,
    peerDependencies: map<string, string>,
    bin: map<string, string>)

  datatype LinkType = Hard | Soft

  datatype Package = Package(
    locator: Locator,
    version: string,
    languageName: string,
    linkType: LinkType,
    dependencies: map<string, string>,
    peerDependencies: map<string, string>,
    bin: map<string, string>)

  const FetcherRequired := "Assertion failed: This resolver cannot be used unless a fetcher is configured"
  const DefaultVersion := "0.0.0"

  /** `x || fallback` on an optional string. */
  function OrElse(x: Option<string>, fallback: string): string
  {
    if x.Some? && x.value != "" then x.value else fallback
  }

  /** `resolve(locator, opts)`: `fetchConfigured` says whether `opts.fetchOptions`
      is set, `manifest` is what `Manifest.find` reads from the fetched package,
      and `defaultLanguageName` is the configuration's default. */
  function Resolve(locator: Locator, fetchConfigured: bool, manifest: Manifest, defaultLanguageName: string): (r: Result<Package>)
    ensures r.Err? <==> !fetchConfigured
    ensures r.Err? ==> r.error.message == FetcherRequired
  {
    if !fetchConfigured then Err(Error(FetcherRequired))
    else Ok(Package(locator, OrElse(manifest.version, DefaultVersion),
                    OrElse(manifest.languageName, defaultLanguageName), Hard,
                    manifest.dependencies, manifest.peerDependencies, manifest.bin))
  }

  /** A resolved package always has a version: the manifest's when it names
      one, `0.0.0` otherwise; everything else is the locator and the manifest. */
  lemma ResolvedVersion(locator: Locator, manifest: Manifest, defaultLanguageName: string)
    ensures Resolve(locator, true, manifest, defaultLanguageName).Ok?
    ensures Resolve(locator, true, manifest, defaultLanguageName).value.version != ""
    ensures manifest.version.Some? && manifest.version.value != "" ==>
      Resolve(locator, true, manifest, defaultLanguageName).value.version == manifest.version.value
    ensures manifest.version.None? || manifest.version.value == "" ==>
      Resolve(locator, true, manifest, defaultLanguageName).value.version == DefaultVersion
    ensures Resolve(locator, true, manifest, defaultLanguageName).value.locator == locator
    ensures Resolve(locator, true, manifest, defaultLanguageName).value.dependencies == manifest.dependencies
  {
  }

  /** Resolving the only candidate of a descriptor keeps its range as the
      package's reference. */
  lemma CandidateResolves(d: Descriptor, manifest: Manifest, defaultLanguageName: string)
    ensures Resolve(GetCandidates(d)[0], true, manifest, defaultLanguageName).Ok?
    ensures Resolve(GetCandidates(d)[0], true, manifest, defaultLanguageName).value.locator.reference == d.range
  {
  }
}
