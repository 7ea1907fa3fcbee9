/** What the manifest logic guarantees, stated over all inputs. */
module Freshness {
  import opened Wrappers
  import opened Text
  import opened Lists
  import opened Versions
  import opened Manifest

  // ---------------------------------------------------------------------
  // Package name
  // ---------------------------------------------------------------------

  lemma GitSuffixBorderFree()
    ensures BorderFree(GIT_SUFFIX)
  {
    assert GIT_SUFFIX[1..] != GIT_SUFFIX[..3] by { assert GIT_SUFFIX[1..][0] == 'g'; }
    assert GIT_SUFFIX[2..] != GIT_SUFFIX[..2] by { assert GIT_SUFFIX[2..][0] == 'i'; }
    assert GIT_SUFFIX[3..] != GIT_SUFFIX[..1] by { assert GIT_SUFFIX[3..][0] == 't'; }
  }

  /** For a URL whose last segment is `name` + ".git", the package name is
      `name` with its own ".git"s removed; a name without ".git" comes back
      unchanged ("Foo.git" gives "Foo"). */
  lemma PackageNameOfGitUrl(prefix: string, name: string)
    requires '/' !in name
    ensures PackageName(Url(prefix + "/" + name + GIT_SUFFIX)) == RemoveAll(name, GIT_SUFFIX)
    ensures !Contains(name, GIT_SUFFIX) ==> PackageName(Url(prefix + "/" + name + GIT_SUFFIX)) == name
  {
    assert prefix + "/" + name + GIT_SUFFIX == prefix + "/" + (name + GIT_SUFFIX);
    assert '/' !in name + GIT_SUFFIX;
    LastPathComponentOf(prefix, name + GIT_SUFFIX);
    GitSuffixBorderFree();
    RemoveAllTrailing(name, GIT_SUFFIX);
  }

  /** ".git" is removed wherever it occurs, not only at the end: a name
      `a` + ".git" + `b` + ".git" loses both. */
  lemma {:induction false} InnerGitRemoved(a: string, b: string)
    requires '.' !in a && !Contains(b, GIT_SUFFIX)
    ensures RemoveAll(a + GIT_SUFFIX + b + GIT_SUFFIX, GIT_SUFFIX) == a + b
  {
    assert a + GIT_SUFFIX + b + GIT_SUFFIX == a + (GIT_SUFFIX + (b + GIT_SUFFIX));
    RemoveAllKeepsPrefix(a, GIT_SUFFIX + (b + GIT_SUFFIX), GIT_SUFFIX);
    RemoveAllLeading(GIT_SUFFIX, b + GIT_SUFFIX);
    GitSuffixBorderFree();
    RemoveAllTrailing(b, GIT_SUFFIX);
  }

  /** So the package name of ".../a.gitb.git" is "ab": a GitHub Pages
      repository "user.github.io.git" (a = "user", b = "hub.io") gets the
      package name "userhub.io", not "user.github.io". */
  lemma PackageNameRemovesInnerGit(prefix: string, a: string, b: string)
    requires '/' !in a && '/' !in b
    requires '.' !in a && !Contains(b, GIT_SUFFIX)
    ensures PackageName(Url(prefix + "/" + a + GIT_SUFFIX + b + GIT_SUFFIX)) == a + b
  {
    PackageNameOfTwoParts(prefix, a, b);
    InnerGitRemoved(a, b);
  }

  /** The removal is a single pass: what is left around a removed ".git"
      can form a new one, so "..gitgit" becomes ".git". */
  lemma OnePassCanLeaveGit()
    ensures RemoveAll("." + GIT_SUFFIX + "git", GIT_SUFFIX) == GIT_SUFFIX
  {
    GitSuffixBorderFree();
    ShorterDoesNotContain(".", GIT_SUFFIX);
    IndexOfAfter(".", GIT_SUFFIX, "git");
    RemoveAllAtFirst("." + GIT_SUFFIX + "git", GIT_SUFFIX, 1);
    OnePassPieces();
    ShorterDoesNotContain("git", GIT_SUFFIX);
  }

  lemma OnePassPieces()
    ensures ("." + GIT_SUFFIX + "git")[..1] == "."
    ensures ("." + GIT_SUFFIX + "git")[1 + |GIT_SUFFIX|..] == "git"
    ensures "." + "git" == GIT_SUFFIX
  {
  }

  lemma PackageNameOfTwoParts(prefix: string, a: string, b: string)
    requires '/' !in a && '/' !in b
    ensures PackageName(Url(prefix + "/" + a + GIT_SUFFIX + b + GIT_SUFFIX)) ==
      RemoveAll(a + GIT_SUFFIX + b + GIT_SUFFIX, GIT_SUFFIX)
  {
    var segment := a + GIT_SUFFIX + b + GIT_SUFFIX;
    NoSlashInTwoParts(a, b);
    assert prefix + "/" + a + GIT_SUFFIX + b + GIT_SUFFIX == prefix + "/" + segment;
    LastPathComponentOf(prefix, segment);
  }

  lemma NoSlashInTwoParts(a: string, b: string)
    requires '/' !in a && '/' !in b
    ensures '/' !in a + GIT_SUFFIX + b + GIT_SUFFIX
  {
    assert '/' !in GIT_SUFFIX;
  }

  // ---------------------------------------------------------------------
  // Tag extraction
  // ---------------------------------------------------------------------

  /** A line yields no tag exactly when it is made only of tabs. */
  lemma TagOfFailsOnTabsOnly(line: string)
    ensures TagOf(line).None? <==> forall k :: 0 <= k < |line| ==> line[k] == '\t'
  {
    var fields := Split(line, '\t');
    WithoutIsEmpty(line, '\t');
    if |fields| > 0 {
      assert Concat(fields) == fields[0] + Concat(fields[1..]);
    }
  }

  /** Listing the tags traps exactly when a line after the first has no
      tag. */
  lemma ListingTrapsOnTagless(output: string)
    ensures var lines := Split(output, '\n');
      ListingTags(output).None? <==> exists i :: 1 <= i < |lines| && TagOf(lines[i]).None?
  {
    var lines := Split(output, '\n');
    if |lines| > 0 {
      MapAllAfterFirst(TagOf, lines);
    }
  }

  /** Otherwise the tags are those of the lines after the first, position
      by position. */
  lemma ListingTagsByLine(output: string)
    requires ListingTags(output).Some?
    ensures var lines := Split(output, '\n');
      var tags := ListingTags(output).value;
      && |tags| == (if |lines| == 0 then 0 else |lines| - 1)
      && forall i :: 1 <= i < |lines| ==> Some(tags[i - 1]) == TagOf(lines[i])
  {
    var lines := Split(output, '\n');
    if |lines| > 0 {
      MapAllAfterFirst(TagOf, lines);
    }
  }

  /** The first line of the listing never contributes: any two non-empty
      first lines give the same versions. */
  lemma ListingSkipsFirstLine(first: string, other: string, rest: string, parse: Parser)
    requires |first| > 0 && '\n' !in first
    requires |other| > 0 && '\n' !in other
    ensures ListedVersions(first + "\n" + rest, parse) == ListedVersions(other + "\n" + rest, parse)
  {
    SplitLeading(first, rest, '\n');
    SplitLeading(other, rest, '\n');
    assert ([first] + Split(rest, '\n'))[1..] == Split(rest, '\n');
    assert ([other] + Split(rest, '\n'))[1..] == Split(rest, '\n');
  }

  /** The versions kept from the tags of `lines` (the first line has no
      tag): there are fewer of them than lines, and the k-th comes from line
      `1 + Kept(parse, tags)[k]`, whose tag parses to it. */
  predicate KeptFromLines(lines: seq<string>, tags: seq<string>, versions: seq<Version>, parse: Parser) {
    var from := Kept(parse, tags);
    && (versions == [] || |versions| < |lines|)
    && |from| == |versions|
    && (forall k :: 0 <= k < |from| ==>
          && 1 + from[k] < |lines|
          && from[k] < |tags|
          && TagOf(lines[1 + from[k]]) == Some(tags[from[k]])
          && parse(tags[from[k]]) == Some(versions[k]))
  }

  /** The listed versions, as what `compactMap` keeps from the tags of the
      listing's lines. */
  lemma ListedVersionsSource(output: string, parse: Parser)
    requires ListedVersions(output, parse).Some?
    ensures KeptFromLines(Split(output, '\n'), ListingTags(output).value, ListedVersions(output, parse).value, parse)
  {
    var tags := ListingTags(output).value;
    ListingTagsByLine(output);
    assert ListedVersions(output, parse).value == CompactMap(parse, tags);
    KeptLines(Split(output, '\n'), tags, ListedVersions(output, parse).value, parse);
  }

  lemma KeptLines(lines: seq<string>, tags: seq<string>, versions: seq<Version>, parse: Parser)
    requires |tags| == (if |lines| == 0 then 0 else |lines| - 1)
    requires forall j :: 1 <= j < |lines| ==> Some(tags[j - 1]) == TagOf(lines[j])
    requires versions == CompactMap(parse, tags)
    ensures KeptFromLines(lines, tags, versions, parse)
  {
    KeptSound(parse, tags);
    LinesOfPositions(lines, tags, Kept(parse, tags));
  }

  /** Positions of tags are positions of lines, one further on. */
  lemma LinesOfPositions(lines: seq<string>, tags: seq<string>, from: seq<nat>)
    requires |tags| == (if |lines| == 0 then 0 else |lines| - 1)
    requires forall j :: 1 <= j < |lines| ==> Some(tags[j - 1]) == TagOf(lines[j])
    requires forall k :: 0 <= k < |from| ==> from[k] < |tags|
    ensures forall k :: 0 <= k < |from| ==>
      1 + from[k] < |lines| && TagOf(lines[1 + from[k]]) == Some(tags[from[k]])
  {
    forall k | 0 <= k < |from|
      ensures 1 + from[k] < |lines| && TagOf(lines[1 + from[k]]) == Some(tags[from[k]])
    {
      LineOfTag(lines, tags, from[k]);
    }
  }

  lemma LineOfTag(lines: seq<string>, tags: seq<string>, i: nat)
    requires |tags| == (if |lines| == 0 then 0 else |lines| - 1)
    requires forall j :: 1 <= j < |lines| ==> Some(tags[j - 1]) == TagOf(lines[j])
    requires i < |tags|
    ensures 1 + i < |lines| && TagOf(lines[1 + i]) == Some(tags[i])
  {
  }

  /** Those lines come in listing order, and every tag that parses
      contributes. */
  lemma ListedVersionsOrder(output: string, parse: Parser)
    requires ListedVersions(output, parse).Some?
    ensures var tags := ListingTags(output).value;
      var from := Kept(parse, tags);
      && (forall k, l :: 0 <= k < l < |from| ==> from[k] < from[l])
      && (forall i :: 0 <= i < |tags| && parse(tags[i]).Some? ==> i in from)
  {
    KeptIncreasing(parse, ListingTags(output).value);
    KeptComplete(parse, ListingTags(output).value);
  }

  /** A `git ls-remote` line (an object name, a tab, "refs/tags/" and the
      tag) yields the tag, when the tag has no tab, does not end in
      whitespace and holds no "refs/tags/" of its own. */
  lemma TagOfRemoteLine(objectName: string, tag: string)
    requires |objectName| > 0 && '\t' !in objectName
    requires |tag| > 0 && '\t' !in tag && !IsWhitespace(tag[|tag| - 1])
    requires !Contains(tag, TAG_PREFIX)
    ensures TagOf(objectName + "\t" + TAG_PREFIX + tag) == Some(tag)
  {
    var field := TAG_PREFIX + tag;
    var line := objectName + "\t" + TAG_PREFIX + tag;
    assert line == objectName + ['\t'] + field;
    TwoFields(objectName, field);
    PrefixedTag(tag);
    TagOfFields(line, [objectName, field]);
  }

  /** A line's tag comes from the last of its fields. */
  lemma TagOfFields(line: string, fields: seq<string>)
    requires |fields| > 0 && Split(line, '\t') == fields
    ensures TagOf(line) == Some(RemoveAll(Trim(fields[|fields| - 1]), TAG_PREFIX))
  {
  }

  /** A field "refs/tags/" + tag cleans to the tag. */
  lemma PrefixedTag(tag: string)
    requires |tag| > 0 && !IsWhitespace(tag[|tag| - 1])
    requires !Contains(tag, TAG_PREFIX)
    ensures RemoveAll(Trim(TAG_PREFIX + tag), TAG_PREFIX) == tag
  {
    var field := TAG_PREFIX + tag;
    assert field[0] == 'r' && field[|field| - 1] == tag[|tag| - 1];
    TrimUnpadded(field);
    RemoveAllLeading(TAG_PREFIX, tag);
  }

  lemma TwoFields(a: string, b: string)
    requires |a| > 0 && '\t' !in a
    requires |b| > 0 && '\t' !in b
    ensures Split(a + ['\t'] + b, '\t') == [a, b]
  {
    SplitLeading(a, b, '\t');
    SplitSingle(b, '\t');
  }

  /** The reference line `git ls-remote --tags` prints for a tag: the
      object name, a tab, "refs/tags/" and the tag. */
  function RemoteLine(objectName: string, tag: string): string {
    objectName + "\t" + TAG_PREFIX + tag
  }

  /** The reference lines for `tags`, one per line, each ending in a
      newline. */
  function RemoteLines(objectName: string, tags: seq<string>): string {
    if tags == [] then []
    else RemoteLine(objectName, tags[0]) + "\n" + RemoteLines(objectName, tags[1..])
  }

  /** The same lines as a list. */
  function RemoteLineList(objectName: string, tags: seq<string>): (lines: seq<string>)
    ensures |lines| == |tags|
    ensures forall i :: 0 <= i < |tags| ==> lines[i] == RemoteLine(objectName, tags[i])
  {
    if tags == [] then []
    else [RemoteLine(objectName, tags[0])] + RemoteLineList(objectName, tags[1..])
  }

  /** A tag as git prints it: non-empty, on one line, without tabs, not
      ending in whitespace and holding no "refs/tags/" of its own. */
  predicate PlainTag(tag: string) {
    && |tag| > 0 && '\t' !in tag && '\n' !in tag
    && !IsWhitespace(tag[|tag| - 1]) && !Contains(tag, TAG_PREFIX)
  }

  predicate PlainObjectName(objectName: string) {
    |objectName| > 0 && '\t' !in objectName && '\n' !in objectName
  }

  /** The newline-separated pieces of the reference lines are the lines. */
  lemma {:induction false} SplitRemoteLines(objectName: string, tags: seq<string>)
    requires PlainObjectName(objectName)
    requires forall i :: 0 <= i < |tags| ==> '\n' !in tags[i]
    ensures Split(RemoteLines(objectName, tags), '\n') == RemoteLineList(objectName, tags)
  {
    if tags != [] {
      assert forall i :: 0 <= i < |tags[1..]| ==> tags[1..][i] == tags[i + 1];
      SplitRemoteLines(objectName, tags[1..]);
      SplitRemoteLine(objectName, tags[0], RemoteLines(objectName, tags[1..]));
    }
  }

  lemma SplitRemoteLine(objectName: string, tag: string, rest: string)
    requires PlainObjectName(objectName) && '\n' !in tag
    ensures Split(RemoteLine(objectName, tag) + "\n" + rest, '\n') == [RemoteLine(objectName, tag)] + Split(rest, '\n')
  {
    assert '\n' !in RemoteLine(objectName, tag) by { assert '\n' !in TAG_PREFIX; }
    SplitLeading(RemoteLine(objectName, tag), rest, '\n');
  }

  /** Each reference line yields its tag. */
  lemma TagsOfRemoteLineList(objectName: string, tags: seq<string>)
    requires PlainObjectName(objectName)
    requires forall i :: 0 <= i < |tags| ==> PlainTag(tags[i])
    ensures MapAll(TagOf, RemoteLineList(objectName, tags)) == Some(tags)
  {
    var lines := RemoteLineList(objectName, tags);
    forall i | 0 <= i < |tags| ensures TagOf(lines[i]) == Some(tags[i]) {
      TagOfRemoteLine(objectName, tags[i]);
    }
    MapAllOf(TagOf, lines, tags);
  }

  /** So reference lines yield their tags, one per line, in order. */
  lemma TagsOfRemoteLines(objectName: string, tags: seq<string>)
    requires PlainObjectName(objectName)
    requires forall i :: 0 <= i < |tags| ==> PlainTag(tags[i])
    ensures MapAll(TagOf, Split(RemoteLines(objectName, tags), '\n')) == Some(tags)
  {
    SplitRemoteLines(objectName, tags);
    TagsOfRemoteLineList(objectName, tags);
  }

  /** The versions of a listing made of a header line and reference lines
      are those of its tags that parse, in listing order. */
  lemma ListedVersionsOfRemote(header: string, objectName: string, tags: seq<string>, parse: Parser)
    requires |header| > 0 && '\n' !in header
    requires PlainObjectName(objectName)
    requires forall i :: 0 <= i < |tags| ==> PlainTag(tags[i])
    ensures ListingTags(header + "\n" + RemoteLines(objectName, tags)) == Some(tags)
    ensures ListedVersions(header + "\n" + RemoteLines(objectName, tags), parse) == Some(CompactMap(parse, tags))
  {
    var rest := RemoteLines(objectName, tags);
    SplitLeading(header, rest, '\n');
    assert ([header] + Split(rest, '\n'))[1..] == Split(rest, '\n');
    TagsOfRemoteLines(objectName, tags);
  }

  // ---------------------------------------------------------------------
  // Outdated decision
  // ---------------------------------------------------------------------

  /** The comparison is with the LAST listed version, not the newest: with
      2.5.0 listed before 1.5.0, a range up to 2.0.0 is not outdated. */
  lemma OutdatedComparesWithLast(parse: Parser)
    requires parse("2.0.0") == Some(Version(2, 0, 0))
    ensures Less(Version(2, 0, 0), Version(2, 5, 0))
    ensures RequirementIsOutdated(Range(VersionRange("1.0.0", "2.0.0")),
      Returned([Version(2, 5, 0), Version(1, 5, 0)]), parse) == Returned(false)
  {
  }

  predicate Ascending(versions: seq<Version>) {
    forall i, j :: 0 <= i < j < |versions| ==> Less(versions[i], versions[j])
  }

  /** When git lists the versions in ascending order, the last is the newest,
      and a requirement is outdated exactly when some listed version is
      newer than the pinned one. */
  lemma {:induction false} OutdatedWhenAscending(requirement: Requirement, versions: seq<Version>, parse: Parser)
    requires Ascending(versions)
    ensures RequirementIsOutdated(requirement, Returned(versions), parse) == Returned(true) <==>
      PinnedVersion(requirement, parse).Some? &&
      exists i :: 0 <= i < |versions| && Less(PinnedVersion(requirement, parse).value, versions[i])
  {
    var pinned := PinnedVersion(requirement, parse);
    if pinned.Some? && exists i :: 0 <= i < |versions| && Less(pinned.value, versions[i]) {
      var i :| 0 <= i < |versions| && Less(pinned.value, versions[i]);
      if i < |versions| - 1 {
        assert Less(versions[i], Last(versions));
        LessIsStrictTotalOrder();
      }
    }
    if RequirementIsOutdated(requirement, Returned(versions), parse) == Returned(true) {
      assert Less(pinned.value, versions[|versions| - 1]);
    }
  }

  /** A bound equal to the last listed version is current, not outdated. */
  lemma EqualBoundIsCurrent(range: VersionRange, versions: seq<Version>, parse: Parser)
    requires |versions| > 0 && range.Upper(parse) == Some(Last(versions))
    ensures RequirementIsOutdated(Range(range), Returned(versions), parse) == Returned(false)
  {
    LessIsStrictTotalOrder();
  }

  /** An exact pin is judged like a range whose upper bound is the pin,
      whatever its lower bound. */
  lemma ExactIsJudgedLikeUpperBound(exact: string, lower: string, available: Outcome<seq<Version>>, parse: Parser)
    ensures RequirementIsOutdated(Exact(exact), available, parse) ==
      RequirementIsOutdated(Range(VersionRange(lower, exact)), available, parse)
  {
  }

  // ---------------------------------------------------------------------
  // Report row
  // ---------------------------------------------------------------------

  /** The Latest column shows the last listed version, whatever its place
      in the version order. */
  lemma LatestIsLastListed(dependency: Dependency, query: Option<string>, parse: Parser, describe: Printer, versions: seq<Version>)
    requires AvailableVersions(query, parse) == Returned(versions) && |versions| > 0
    ensures TableValues(dependency, query, parse, describe).Returned?
    ensures TableValues(dependency, query, parse, describe).value[2] == Plain(describe(Last(versions)))
  {
  }

  /** A failed query gives the name, the unmarked requirement text and
      "n/a". */
  lemma FailedQueryRow(dependency: Dependency, parse: Parser, describe: Printer)
    ensures TableValues(dependency, None, parse, describe) ==
      Returned([Plain(PackageName(dependency.url)), Plain(TableText(dependency.requirement)), Plain(NOT_AVAILABLE)])
  {
  }

  /** So does a listing in which no tag parses as a version. */
  lemma NoVersionRow(dependency: Dependency, output: string, parse: Parser, describe: Printer)
    requires ListedVersions(output, parse) == Some([])
    ensures TableValues(dependency, Some(output), parse, describe) ==
      Returned([Plain(PackageName(dependency.url)), Plain(TableText(dependency.requirement)), Plain(NOT_AVAILABLE)])
  {
  }

  /** Branches, revisions and local packages are never marked, whatever the
      listing holds; their row traps only when the listing itself traps. */
  lemma UnversionedRowNeverMarked(dependency: Dependency, query: Option<string>, parse: Parser, describe: Printer)
    requires !(dependency.requirement.Range? || dependency.requirement.Exact?)
    ensures TableValues(dependency, query, parse, describe).Returned? ==>
      TableValues(dependency, query, parse, describe).value[1] == Plain(TableText(dependency.requirement))
  {
  }

  /** The range text shows both bounds unambiguously: when the lower bound
      holds no "..<", the text determines the range. */
  lemma RangeTextDeterminesBounds(a: VersionRange, b: VersionRange)
    requires !Contains(a.lowerBound, RANGE_SEPARATOR) && !Contains(b.lowerBound, RANGE_SEPARATOR)
    requires TableText(Range(a)) == TableText(Range(b))
    ensures a == b
  {
    var sep := RANGE_SEPARATOR;
    assert BorderFree(sep) by {
      assert sep[1..] != sep[..2] by { assert sep[1..][1] == '<'; }
      assert sep[2..] != sep[..1] by { assert sep[2..][0] == '<'; }
    }
    SeparatedPartsEqual(a.lowerBound, a.upperBound, b.lowerBound, b.upperBound, sep);
  }

  /** Two strings split around their first occurrence of a border-free
      separator agree piece by piece when they are equal. */
  lemma SeparatedPartsEqual(la: string, ua: string, lb: string, ub: string, sep: string)
    requires |sep| > 0 && BorderFree(sep)
    requires !Contains(la, sep) && !Contains(lb, sep)
    requires la + sep + ua == lb + sep + ub
    ensures la == lb && ua == ub
  {
    IndexOfAfter(la, sep, ua);
    IndexOfAfter(lb, sep, ub);
    var t := la + sep + ua;
    assert |la| == |lb|;
    assert la == t[..|la|] == lb;
    assert ua == t[|la| + |sep|..] == ub;
  }
}
