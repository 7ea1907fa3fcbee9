/** The dependency records of a resolved-package manifest and the logic that
    decides, per dependency, whether its requirement is outdated and what the
    report row shows. The version listing of a checkout (`git ls-remote
    --tags` run in `.build/checkouts/<package name>`) reaches this model as
    a `query`: the raw output, or `None` when the checkout folder is missing
    or the command fails (both throw in the source). */
module Manifest {
  import opened Wrappers
  import opened Text
  import opened Lists
  import opened Versions

  /** A dependency's URL, by its path. */
  datatype Url = Url(path: string)

  /** `Dependency.Range`: the bounds as written in the manifest. */
  datatype VersionRange = VersionRange(lowerBound: string, upperBound: string) {
    /** `lower`: the lower bound, if it is a version. */
    function Lower(parse: Parser): Option<Version> {
      parse(lowerBound)
    }

    /** `upper`: the upper bound, if it is a version. */
    function Upper(parse: Parser): Option<Version> {
      parse(upperBound)
    }
  }

  /** `Dependency.Requirement`: how a dependency is pinned. */
  datatype Requirement =
    | Range(range: VersionRange)
    | Exact(exact: string)
    | Branch(branch: string)
    | Revision(revision: string)
    | LocalPackage

  datatype Dependency = Dependency(url: Url, requirement: Requirement)

  /** One cell of a report row; `Marked` is the text shown in red with an
      up-arrow after it. */
  datatype Cell = Plain(text: string) | Marked(text: string)

  const COLUMN_HEADERS: seq<string> := ["Name", "Requirement", "Latest"]

  const GIT_SUFFIX: string := ".git"
  const TAG_PREFIX: string := "refs/tags/"
  const NOT_AVAILABLE: string := "n/a"

  // ---------------------------------------------------------------------
  // Package name
  // ---------------------------------------------------------------------

  /** `packageName`: the last path component with every ".git" removed. It
      is a single path segment, and a component without ".git" is kept as
      it is. */
  function PackageName(url: Url): (name: string)
    ensures name == "/" || '/' !in name
    ensures !Contains(LastPathComponent(url.path), GIT_SUFFIX) ==>
      name == LastPathComponent(url.path)
  {
    RemoveAll(LastPathComponent(url.path), GIT_SUFFIX)
  }

  // ---------------------------------------------------------------------
  // Available versions
  // ---------------------------------------------------------------------

  /** The tag a listing line names: its last tab-separated field, trimmed,
      with every "refs/tags/" removed. A line made only of tabs has no last
      field; the source force-unwraps it there and traps, here `None`. */
  function TagOf(line: string): (tag: Option<string>)
    ensures tag.Some? ==> '\t' !in tag.value
  {
    var fields := Split(line, '\t');
    if |fields| == 0 then None
    else Some(RemoveAll(Trim(Last(fields)), TAG_PREFIX))
  }

  /** The tags of the non-empty lines of `git ls-remote --tags` output,
      the first line (the remote's description) skipped; `None` is the trap
      on a line after the first made only of tabs (the first line is dropped
      before its fields are taken, so it never traps). */
  function ListingTags(output: string): (tags: Option<seq<string>>)
    ensures tags.Some? ==> forall i :: 0 <= i < |tags.value| ==> '\t' !in tags.value[i]
  {
    var lines := Split(output, '\n');
    if |lines| == 0 then Some([]) else MapAll(TagOf, lines[1..])
  }

  /** The parsing pipeline of `availableVersions`: the listed tags that parse
      as versions, in listing order. */
  function ListedVersions(output: string, parse: Parser): (versions: Option<seq<Version>>)
    ensures versions.Some? <==> ListingTags(output).Some?
    ensures versions.Some? ==> |versions.value| <= |ListingTags(output).value|
  {
    match ListingTags(output)
    case None => None
    case Some(tags) => Some(CompactMap(parse, tags))
  }

  /** `availableVersions()`: throws when the query failed, traps on a line
      after the first made only of tabs, and otherwise returns the listed
      versions. */
  function AvailableVersions(query: Option<string>, parse: Parser): (r: Outcome<seq<Version>>)
    ensures r.Threw? <==> query.None?
    ensures query.Some? ==>
      (r.Trapped? <==> ListedVersions(query.value, parse).None?) &&
      (r.Returned? ==> Some(r.value) == ListedVersions(query.value, parse))
  {
    match query
    case None => Threw
    case Some(output) =>
      match ListedVersions(output, parse)
      case None => Trapped
      case Some(versions) => Returned(versions)
  }

  // ---------------------------------------------------------------------
  // Outdated decision
  // ---------------------------------------------------------------------

  /** The version a requirement is compared with: the parsed upper bound of
      a range, the parsed version of an exact pin, nothing otherwise. */
  function PinnedVersion(requirement: Requirement, parse: Parser): (pinned: Option<Version>)
    ensures pinned.Some? ==> requirement.Range? || requirement.Exact?
  {
    match requirement
    case Range(range) => range.Upper(parse)
    case Exact(exact) => parse(exact)
    case _ => None
  }

  /** `requirementIsOutdated()`, given what `availableVersions()` ended in.
      Branches, revisions and local packages are never outdated and never
      look at the versions; ranges and exact pins pass on a throw or a trap,
      and are outdated exactly when some version is available, the pinned
      version parses, and it is below the LAST available version. */
  function RequirementIsOutdated(requirement: Requirement, available: Outcome<seq<Version>>, parse: Parser): (r: Outcome<bool>)
    ensures !(requirement.Range? || requirement.Exact?) ==> r == Returned(false)
    ensures requirement.Range? || requirement.Exact? ==>
      (r.Threw? <==> available.Threw?) && (r.Trapped? <==> available.Trapped?)
    ensures r == Returned(true) <==>
      && available.Returned? && |available.value| > 0
      && PinnedVersion(requirement, parse).Some?
      && Less(PinnedVersion(requirement, parse).value, Last(available.value))
  {
    match requirement
    case Range(_) | Exact(_) =>
      (match available
       case Threw => Threw
       case Trapped => Trapped
       case Returned(versions) =>
         if |versions| == 0 then Returned(false)
         else
           match PinnedVersion(requirement, parse)
           case None => Returned(false)
           case Some(pinned) => Returned(Less(pinned, Last(versions))))
    case _ => Returned(false)
  }

  // ---------------------------------------------------------------------
  // Report row
  // ---------------------------------------------------------------------

  const RANGE_SEPARATOR: string := "..<"

  /** `Requirement.tableText`: a range as its two bounds around "..<", the
      other pins as their own string, a local package as "local". */
  function TableText(requirement: Requirement): (text: string)
    ensures requirement.Range? ==>
      var lower := requirement.range.lowerBound;
      var upper := requirement.range.upperBound;
      && |text| == |lower| + |RANGE_SEPARATOR| + |upper|
      && text[..|lower|] == lower
      && text[|lower|..|lower| + |RANGE_SEPARATOR|] == RANGE_SEPARATOR
      && text[|lower| + |RANGE_SEPARATOR|..] == upper
  {
    match requirement
    case Range(range) => range.lowerBound + RANGE_SEPARATOR + range.upperBound
    case Exact(exact) => exact
    case Branch(branch) => branch
    case Revision(revision) => revision
    case LocalPackage => "local"
  }

  /** The Latest column: the description of the last available version, or
      "n/a" when the query threw or listed no version. */
  function LatestText(available: Outcome<seq<Version>>, describe: Printer): (text: string)
    requires !available.Trapped?
    ensures available.Threw? || available.value == [] ==> text == NOT_AVAILABLE
    ensures text != NOT_AVAILABLE ==> available.Returned? && |available.value| > 0
    ensures available.Returned? && |available.value| > 0 ==> text == describe(Last(available.value))
  {
    if available.Returned? && |available.value| > 0 then describe(Last(available.value))
    else NOT_AVAILABLE
  }

  /** `tableValues`: Name, Requirement, Latest. A throw while deciding
      outdatedness counts as not outdated; the requirement text is marked
      exactly when the requirement is outdated. The row traps (and so does
      the run) exactly when listing the versions traps. */
  function TableValues(dependency: Dependency, query: Option<string>, parse: Parser, describe: Printer): (row: Outcome<seq<Cell>>)
    ensures !row.Threw?
    ensures row.Trapped? <==> AvailableVersions(query, parse).Trapped?
    ensures row.Returned? ==>
      var available := AvailableVersions(query, parse);
      var text := TableText(dependency.requirement);
      && |row.value| == |COLUMN_HEADERS|
      && row.value[0] == Plain(PackageName(dependency.url))
      && row.value[1].text == text
      && (row.value[1].Marked? <==> RequirementIsOutdated(dependency.requirement, available, parse) == Returned(true))
      && row.value[2] == Plain(LatestText(available, describe))
  {
    var available := AvailableVersions(query, parse);
    var outdated := RequirementIsOutdated(dependency.requirement, available, parse);
    if outdated.Trapped? || available.Trapped? then Trapped
    else
      var isOutdated := outdated == Returned(true);
      var text := TableText(dependency.requirement);
      Returned([
        Plain(PackageName(dependency.url)),
        if isOutdated then Marked(text) else Plain(text),
        Plain(LatestText(available, describe))
      ])
  }

  // ---------------------------------------------------------------------
  // Decoding a dependency
  // ---------------------------------------------------------------------

  /** The `requirement` object of a manifest entry, by what each of its two
      recognised keys decodes to (`None`: key missing or not of the expected
      shape, which `try?` turns into nil). */
  datatype RequirementContainer = RequirementContainer(
    range: Option<seq<VersionRange>>,
    branch: Option<seq<string>>)

  /** A payload list is taken when it has exactly one element; with
      assertions off (an optimised build) a longer list is taken too, by its
      first element. */
  predicate Usable<T>(items: seq<T>, assertionsEnabled: bool) {
    |items| == 1 || (!assertionsEnabled && |items| > 1)
  }

  /** `init(from:)`: the URL and the requirement object must decode (else it
      throws); then `range` is tried first, then `branch`, and anything else
      is a `fatalError`. A payload list of the wrong length fails the
      `assert` or the force-unwrap of `first`. */
  function Decode(url: Option<Url>, container: Option<RequirementContainer>, assertionsEnabled: bool): (r: Outcome<Dependency>)
    ensures r.Threw? <==> url.None? || container.None?
    ensures r.Returned? ==> r.value.url == url.value
    ensures r.Returned? ==> r.value.requirement.Range? || r.value.requirement.Branch?
    ensures r.Returned? <==>
      && url.Some? && container.Some?
      && (match container.value.range
          case Some(ranges) => Usable(ranges, assertionsEnabled)
          case None => container.value.branch.Some? && Usable(container.value.branch.value, assertionsEnabled))
    ensures r.Returned? && container.value.range.Some? ==>
      r.value.requirement == Range(container.value.range.value[0])
    ensures r.Returned? && container.value.range.None? ==>
      r.value.requirement == Branch(container.value.branch.value[0])
  {
    match (url, container)
    case (Some(u), Some(c)) =>
      (match c.range
       case Some(ranges) =>
         if assertionsEnabled && |ranges| != 1 then Trapped
         else if |ranges| == 0 then Trapped
         else Returned(Dependency(u, Range(ranges[0])))
       case None =>
         match c.branch
         case Some(branches) =>
           if assertionsEnabled && |branches| != 1 then Trapped
           else if |branches| == 0 then Trapped
           else Returned(Dependency(u, Branch(branches[0])))
         case None => Trapped)
    case _ => Threw
  }
}
