# swift-outdated: dependency freshness, modelled in Dafny

swift-outdated reads the resolved-package manifest of a Swift package. For
each dependency it lists the tags of the dependency's checkout with
`git ls-remote --tags` and prints one table row: the package name, the
requirement text (red with an up-arrow when its pinned version is below the last version git
lists), and the
latest listed version. This project models that logic, which lives in
`Sources/SwiftOutdated/Manifest.swift`, and proves properties of it:

- `Manifest` holds the manifest records and their logic:
  - `packageName`;
  - the tag-extraction pipeline of `availableVersions`;
  - `requirementIsOutdated`;
  - `tableText`;
  - the `tableValues` row;
  - the requirement-selection rule of `init(from:)`.
- `Text` models the string operations the logic uses:
  - the standard library's `split(separator:)`, which omits empty pieces;
  - Foundation's `trimmingCharacters(in: .whitespaces)`;
  - Foundation's `replacingOccurrences(of:with: "")`;
  - Foundation's `URL.lastPathComponent`.
- `Lists` models `Array.last`, `compactMap`, and a `map` that force-unwraps
  each result.
- `Versions` models semantic versions with their strict total order. Parsing
  a string (`Version(_:)`) and printing a version (`description`) belong to
  the Version library. The model takes them as the function parameters
  `parse` and `describe`.
- `Freshness` proves the properties, almost all of them over all inputs.
  `OutdatedComparesWithLast` and `OnePassCanLeaveGit` are concrete examples;
  `InnerGitRemoved` and `PackageNameRemovesInnerGit` hold for every pair of
  names around an inner ".git".
- `Scenarios` proves the end-to-end behaviour on one dependency,
  `.../org/Foo.git`, pinned to `1.0.0..<2.0.0`.

Swift has three ways for a call to end. The model writes them as an
`Outcome`:
- `Returned`: the call returned a value.
- `Threw`: the call threw an error. This happens when the checkout folder is
  missing or the git command fails. `tableValues` turns a throw into `false`
  or "n/a".
- `Trapped`: the program crashed. Causes are a force-unwrap of `nil`, a failed
  `assert`, and `fatalError`.

The `git ls-remote` output reaches the model as a `query: Option<string>`.
`None` stands for a missing checkout folder or a failed command.

Two behaviours of the code are easy to misread. The model follows the code
on both:

- **The latest version is the last one listed, not the newest.** Versions are
  compared in listing order. `Freshness.OutdatedComparesWithLast` shows that
  a listing of 2.5.0 then 1.5.0 leaves the range `..<2.0.0` not outdated. Only
  when git lists versions in ascending order is the last the newest
  (`Freshness.OutdatedWhenAscending`).
- **Every ".git" is removed from the package name, not only a trailing
  one.** `replacingOccurrences` removes all occurrences.
  `Freshness.PackageNameRemovesInnerGit` shows that `.../a.gitb.git` is named
  `ab`. A repository `user.github.io.git` is therefore named `userhub.io`.
  The removal is a single left-to-right pass and does not rescan what it
  leaves behind, so a name can still hold ".git" afterwards:
  `Freshness.OnePassCanLeaveGit` shows that `..gitgit` becomes `.git`.

The decoder only produces `range` and `branch` requirements. The
requirement keys `exact`, `revision` and `localPackage` are commented out in
the source. In the model, `Manifest.Decode` never yields the other three
cases; `RequirementIsOutdated` and `TableText` still handle every case, as
the source does.

## Model

| member | source | states |
|---|---|---|
| Manifest.PackageName | Sources/SwiftOutdated/Manifest.swift:16-18 | The package name is a single path segment ("/" or slash-free), and a last path component without ".git" is the name unchanged. |
| Freshness.PackageNameOfGitUrl | Sources/SwiftOutdated/Manifest.swift:16-18 | For a URL ending in `/name.git`, the package name is `name` with its own ".git"s removed, and exactly `name` when it contains none. |
| Freshness.InnerGitRemoved | Sources/SwiftOutdated/Manifest.swift:17 | Removing ".git" deletes every occurrence: `a.gitb.git` becomes `ab`. |
| Freshness.PackageNameRemovesInnerGit | Sources/SwiftOutdated/Manifest.swift:16-18 | A URL ending in `/a.gitb.git` has the package name `ab`. |
| Freshness.OnePassCanLeaveGit | Sources/SwiftOutdated/Manifest.swift:17 | One removal pass turns `..gitgit` into `.git`: what is left after a removal is not rescanned. |
| Text.Split | Sources/SwiftOutdated/Manifest.swift:24 | The pieces are non-empty and separator-free, and laid end to end they give the input with its separators dropped. |
| Text.SplitLeading | Sources/SwiftOutdated/Manifest.swift:24-25 | Splitting `h` + separator + `rest` gives `h` followed by the pieces of `rest`. |
| Text.SplitDropsLeadingSeparator | Sources/SwiftOutdated/Manifest.swift:24 | A leading separator contributes no piece, and the empty string splits into no pieces. With `SplitLeading` and `SplitSingle` this fixes the pieces of every input. |
| Text.Trim | Sources/SwiftOutdated/Manifest.swift:29 | The result is the input with only whitespace before and after it, and it neither starts nor ends with whitespace. |
| Text.TrimUnpadded | Sources/SwiftOutdated/Manifest.swift:29 | A string that neither starts nor ends with whitespace trims to itself. |
| Text.RemoveAll | Sources/SwiftOutdated/Manifest.swift:30 | The result is no longer than the input, holds only the input's characters, and is the input when the pattern does not occur. |
| Text.RemoveAllAtFirst | Sources/SwiftOutdated/Manifest.swift:30 | At the first occurrence of the pattern, the result is the text before it followed by the removal applied to the text after it. With the no-occurrence case (`RemoveAll`'s own ensures, and `Text.IndexOfNoneIffAbsent`: no first occurrence exactly when none occurs) this fixes the result. That the position is the first occurrence is `Text.IndexOfIsFirst`. |
| Text.IndexOfIsFirst | Sources/SwiftOutdated/Manifest.swift:30 | No position before the one the search finds starts an occurrence of the pattern. |
| Text.IndexOfNoneIffAbsent | Sources/SwiftOutdated/Manifest.swift:30 | The search for a first occurrence fails exactly when the pattern does not occur. |
| Text.RemoveAllTrailing | Sources/SwiftOutdated/Manifest.swift:17 | For a pattern that cannot overlap itself, a trailing occurrence is removed and the rest is scanned as if it were not there. |
| Text.LastPathComponent | Sources/SwiftOutdated/Manifest.swift:17 | The component is "/" or slash-free, and it is empty exactly when the path is. |
| Text.LastPathComponentIgnoresTrailingSlash | Sources/SwiftOutdated/Manifest.swift:17 | A trailing slash does not change the last path component of a non-empty path. |
| Text.LastPathComponentOf | Sources/SwiftOutdated/Manifest.swift:17 | The last path component of `prefix/segment` is the segment. |
| Text.LastPathComponentOfSegment | Sources/SwiftOutdated/Manifest.swift:17 | A non-empty path without slashes is its own last path component. |
| Text.LastPathComponentOfSlashes | Sources/SwiftOutdated/Manifest.swift:17 | A non-empty path made only of slashes has the last path component "/". |
| Lists.CompactMap | Sources/SwiftOutdated/Manifest.swift:32 | `compactMap` returns at most as many elements as it is given. |
| Lists.CompactMapKeeps | Sources/SwiftOutdated/Manifest.swift:32 | The k-th result comes from position `Kept[k]`, where the function yields it; those positions increase; every position the function keeps is among them. |
| Lists.MapAll | Sources/SwiftOutdated/Manifest.swift:26-31 | The force-unwrapping `map` succeeds exactly when every element has a value; it then keeps length and position. |
| Manifest.TagOf | Sources/SwiftOutdated/Manifest.swift:27-30 | A tag holds no tab. `Freshness.TagOfFailsOnTabsOnly` fixes when there is no tag, and `Freshness.TagOfRemoteLine` fixes the tag of a two-field `<object>\trefs/tags/<tag>` line with a plain tag. On other lines (more fields, a tag ending in whitespace or holding "refs/tags/") the tag is given by the body only. |
| Manifest.ListingTags | Sources/SwiftOutdated/Manifest.swift:24-31 | Every listed tag is tab-free. The line-by-line behaviour, the trap and the skipped first line are in `Freshness.ListingTrapsOnTagless`, `Freshness.ListingTagsByLine` and `Freshness.ListingSkipsFirstLine`. |
| Manifest.ListedVersions | Sources/SwiftOutdated/Manifest.swift:23-32 | The versions exist exactly when the tags do, and there are no more versions than tags. Their origin is in `Freshness.ListedVersionsSource` and `Freshness.ListedVersionsOrder`. |
| Manifest.AvailableVersions | Sources/SwiftOutdated/Manifest.swift:20-33 | The call throws exactly when the query failed, traps exactly when a line after the first is made only of tabs, and otherwise returns the listed versions. |
| Freshness.TagOfFailsOnTabsOnly | Sources/SwiftOutdated/Manifest.swift:27-28 | A line has no last tab-separated field (the `.last!` trap) exactly when it consists only of tabs. |
| Freshness.ListingTrapsOnTagless | Sources/SwiftOutdated/Manifest.swift:24-31 | Listing the tags traps exactly when some line after the first consists only of tabs. |
| Freshness.ListingTagsByLine | Sources/SwiftOutdated/Manifest.swift:24-31 | Otherwise there is one tag per line after the first, and tag `i - 1` is that of line `i`. |
| Freshness.ListingSkipsFirstLine | Sources/SwiftOutdated/Manifest.swift:25 | The first (remote description) line never affects the listed versions. |
| Freshness.ListedVersionsSource | Sources/SwiftOutdated/Manifest.swift:23-32 | The versions are `KeptFromLines` of the listing: there are fewer of them than lines, and the k-th version is what its tag parses to, its tag being that of line `1 + Kept[k]`. |
| Freshness.ListedVersionsOrder | Sources/SwiftOutdated/Manifest.swift:32 | Versions keep listing order, and every tag that parses contributes a version. |
| Freshness.TagOfRemoteLine | Sources/SwiftOutdated/Manifest.swift:26-31 | A line `<object>\trefs/tags/<tag>` yields `<tag>`, for a non-empty object name without a tab and a non-empty tag that holds no tab, does not end in whitespace and holds no "refs/tags/". |
| Freshness.TagsOfRemoteLines | Sources/SwiftOutdated/Manifest.swift:24-31 | A run of such lines, each with a tag that also holds no newline (`PlainTag`: non-empty, no tab or newline, not ending in whitespace, no "refs/tags/"), yields their tags, one per line, in order. |
| Freshness.ListedVersionsOfRemote | Sources/SwiftOutdated/Manifest.swift:23-32 | A listing of a header line and reference lines yields exactly its tags, and as versions those tags that parse, in order. |
| Manifest.RequirementIsOutdated | Sources/SwiftOutdated/Manifest.swift:35-54 | Branches, revisions and local packages are never outdated. Ranges and exact pins pass a throw or trap on. A requirement is outdated exactly when a version is listed, the pinned version parses, and it is below the last listed version. |
| Manifest.PinnedVersion | Sources/SwiftOutdated/Manifest.swift:38-39 | Only a range (by its upper bound, `range.upper`) or an exact pin has a version to compare with. |
| Manifest.VersionRange.Upper | Sources/SwiftOutdated/Manifest.swift:85-87 | The upper bound as a version, if it parses. This is the bound a range is judged by (`Freshness.ExactIsJudgedLikeUpperBound`). |
| Manifest.VersionRange.Lower | Sources/SwiftOutdated/Manifest.swift:81-83 | The lower bound as a version, if it parses. Nothing in the source reads it. |
| Freshness.OutdatedComparesWithLast | Sources/SwiftOutdated/Manifest.swift:38-43 | With 2.5.0 listed before 1.5.0, the range `1.0.0..<2.0.0` is not outdated, although 2.0.0 < 2.5.0. |
| Freshness.OutdatedWhenAscending | Sources/SwiftOutdated/Manifest.swift:35-54 | For an ascending listing, a requirement is outdated exactly when some listed version is above the pinned one. |
| Freshness.EqualBoundIsCurrent | Sources/SwiftOutdated/Manifest.swift:37-43 | An upper bound equal to the last listed version is not outdated. |
| Freshness.ExactIsJudgedLikeUpperBound | Sources/SwiftOutdated/Manifest.swift:37-50 | An exact pin is judged exactly as a range whose upper bound is the pin, whatever the lower bound. |
| Manifest.TableText | Sources/SwiftOutdated/Manifest.swift:109-122 | The five-case rendering. A range's text is its lower bound, then "..<", then its upper bound, each at its own position. See `Scenarios.FooRangeText` and `Freshness.RangeTextDeterminesBounds`. |
| Scenarios.FooRangeText | Sources/SwiftOutdated/Manifest.swift:111-112 | The range 1.0.0 to 2.0.0 is shown as `1.0.0..<2.0.0`. |
| Freshness.RangeTextDeterminesBounds | Sources/SwiftOutdated/Manifest.swift:109-112 | When neither lower bound contains "..<", equal range texts mean equal ranges. |
| Manifest.TableValues | Sources/SwiftOutdated/Manifest.swift:132-140 | The row never throws, and traps exactly when the listing traps. Otherwise it has the three columns: the package name, the requirement text (marked exactly when outdated), and the latest text. |
| Manifest.LatestText | Sources/SwiftOutdated/Manifest.swift:134 | The Latest column is "n/a" when the query threw or no version is listed, and otherwise the description of the last listed version. |
| Freshness.LatestIsLastListed | Sources/SwiftOutdated/Manifest.swift:134-138 | For every dependency whose query lists at least one version, the row's Latest column is the description of the last listed version, which need not be the newest. |
| Freshness.FailedQueryRow | Sources/SwiftOutdated/Manifest.swift:132-140 | A failed query gives the name, the unmarked requirement and "n/a". |
| Freshness.NoVersionRow | Sources/SwiftOutdated/Manifest.swift:133-134 | A listing in which no tag parses also gives the unmarked requirement and "n/a". |
| Freshness.UnversionedRowNeverMarked | Sources/SwiftOutdated/Manifest.swift:133-137 | Branch, revision and local-package rows are never marked. |
| Manifest.Decode | Sources/SwiftOutdated/Manifest.swift:90-105 | Decoding throws exactly when the URL or the requirement object is missing. It keeps the URL and yields only range or branch requirements. It succeeds exactly when the range list (tried first), or else the branch list, is usable. It then takes that list's first element. |
| Scenarios.OutdatedRangeScenario | Sources/SwiftOutdated/Manifest.swift:20-54 | Tags v1.5.0, v2.5.0 and not-a-version give the versions 1.5.0 and 2.5.0, and the row `Foo`, marked `1.0.0..<2.0.0`, `2.5.0`. |
| Scenarios.CurrentRangeScenario | Sources/SwiftOutdated/Manifest.swift:132-140 | The tag v1.5.0 alone gives the row `Foo`, unmarked `1.0.0..<2.0.0`, `1.5.0`. |
| Scenarios.BranchScenario | Sources/SwiftOutdated/Manifest.swift:133-137 | A dependency on the branch `main` shows `main` unmarked. |
| Scenarios.MissingCheckoutScenario | Sources/SwiftOutdated/Manifest.swift:132-140 | Without a checkout the row is `Foo`, unmarked `1.0.0..<2.0.0`, `n/a`. |

## Left out

- I/O is the `query` parameter. This covers looking up the checkout folder (`Folder`) and running git (`shellOut`); when either throws, `query` is `None`.
- For a range or an exact requirement, `tableValues` calls `availableVersions()` twice, once directly and once through `requirementIsOutdated()`. Branch, revision and local-package rows call it once, because the `default:` branch of `requirementIsOutdated()` makes no call. The model gives every call the same query result, so it ignores a checkout that changes in between.
- Version parsing and printing belong to the Version library, which is not part of this model. They are the parameters `parse` and `describe`. `Versions.Version` keeps only major, minor and patch, so pre-release and build ordering is left out.
- URL parsing is left out: a URL is modelled by its path only, and `lastPathComponent` acts on that path.
- Strings are sequences of Unicode scalars. Swift splits on grapheme clusters, so the model does not capture that "\r\n" is one `Character` and is not split at "\n".
- The red colour and the "⬆️" suffix are abstracted as `Cell.Marked`. SwiftyTextTable's table layout is left out.
- JSON decoding is left out. `Manifest.Decode` receives the decoded `url` and the decoded `range` and `branch` lists, with `None` standing for a failed `try?`.
- Build configuration: the `assert` on the list length in `init(from:)` only runs in debug builds, so `Decode` receives the build mode as the parameter `assertionsEnabled`.
- `VersionRange.Lower` is modelled but is used nowhere in the source.
- The loop over a manifest's dependencies, the table printing, and `Package.swift` are outside this core.
- TagOf: its own contract only states that a tag holds no tab. `Freshness.TagOfFailsOnTabsOnly` covers the missing tag and `Freshness.TagOfRemoteLine` the two-field reference line with a plain tag; for other lines (three or more fields, a tag ending in whitespace, a tag holding "refs/tags/", which the source shortens: `a/refs/tags/b` becomes `a/b`) no lemma states the tag.
