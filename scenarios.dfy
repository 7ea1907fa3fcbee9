/** The behaviour a user of the tool sees, on one dependency
    "https://example.com/org/Foo.git" pinned to the range 1.0.0..<2.0.0. The
    version parser and printer are those of the Version library, given here
    by the few values the scenarios need. */
module Scenarios {
  import opened Wrappers
  import opened Text
  import opened Lists
  import opened Versions
  import opened Manifest
  import opened Freshness

  const FOO_RANGE: Requirement := Range(VersionRange("1.0.0", "2.0.0"))

  /** The dependency, its URL path below `owner` (the owner's path on the
      host). */
  function Foo(owner: string): Dependency {
    Dependency(Url(owner + "/Foo.git"), FOO_RANGE)
  }

  /** What the scenarios need of the Version library. */
  predicate KnowsScenarioVersions(parse: Parser, describe: Printer) {
    && parse("v1.5.0") == Some(Version(1, 5, 0))
    && parse("v2.5.0") == Some(Version(2, 5, 0))
    && parse("not-a-version") == None
    && parse("2.0.0") == Some(Version(2, 0, 0))
    && describe(Version(1, 5, 0)) == "1.5.0"
    && describe(Version(2, 5, 0)) == "2.5.0"
  }

  /** A listing: the remote's header line and one reference line per tag. */
  function Listing(header: string, objectName: string, tags: seq<string>): string {
    header + "\n" + RemoteLines(objectName, tags)
  }

  predicate PlainHeader(header: string) {
    |header| > 0 && '\n' !in header
  }

  lemma FooName(owner: string)
    ensures PackageName(Foo(owner).url) == "Foo"
  {
    FooPath(owner);
    ShortGitName(owner, "Foo");
  }

  lemma FooPath(owner: string)
    ensures Foo(owner).url.path == owner + "/" + "Foo" + GIT_SUFFIX
    ensures '/' !in "Foo"
  {
  }

  lemma FooRangeText()
    ensures TableText(FOO_RANGE) == "1.0.0..<2.0.0"
  {
  }

  /** A name shorter than ".git" comes out of its ".git" URL unchanged. */
  lemma ShortGitName(prefix: string, name: string)
    requires '/' !in name && |name| < |GIT_SUFFIX|
    ensures PackageName(Url(prefix + "/" + name + GIT_SUFFIX)) == name
  {
    ShorterDoesNotContain(name, GIT_SUFFIX);
    PackageNameOfGitUrl(prefix, name);
  }

  /** A one-line tag without tabs and without an "f", not ending in
      whitespace, is plain. */
  lemma PlainTagOf(tag: string)
    requires |tag| > 0 && !IsWhitespace(tag[|tag| - 1])
    requires '\t' !in tag && '\n' !in tag && 'f' !in tag
    ensures PlainTag(tag)
  {
    assert TAG_PREFIX[2] == 'f';
    MissingCharNotContained(tag, TAG_PREFIX, 'f');
  }

  const ALL_TAGS: seq<string> := ["v1.5.0", "v2.5.0", "not-a-version"]

  /** None of the scenario's tags holds a tab, a newline or an "f" (so none
      holds "refs/tags/"). */
  lemma TagCharacters()
    ensures forall i :: 0 <= i < |ALL_TAGS| ==>
      '\t' !in ALL_TAGS[i] && '\n' !in ALL_TAGS[i] && 'f' !in ALL_TAGS[i]
  {
  }

  lemma AllTagsArePlain()
    ensures forall i :: 0 <= i < |ALL_TAGS| ==> PlainTag(ALL_TAGS[i])
  {
    forall i | 0 <= i < |ALL_TAGS| ensures PlainTag(ALL_TAGS[i]) {
      TagCharacters();
      PlainTagOf(ALL_TAGS[i]);
    }
  }

  lemma AllTagVersions(parse: Parser, describe: Printer)
    requires KnowsScenarioVersions(parse, describe)
    ensures CompactMap(parse, ALL_TAGS) == [Version(1, 5, 0), Version(2, 5, 0)]
  {
    assert ALL_TAGS[1..] == ["v2.5.0", "not-a-version"];
    assert ALL_TAGS[1..][1..] == ["not-a-version"];
    assert ALL_TAGS[1..][1..][1..] == [];
  }

  lemma OldTagVersions(parse: Parser, describe: Printer)
    requires KnowsScenarioVersions(parse, describe)
    ensures CompactMap(parse, ["v1.5.0"]) == [Version(1, 5, 0)]
  {
    assert ["v1.5.0"][1..] == [];
  }

  /** The row of a range whose listing ends in `latest`. */
  lemma RangeRow(owner: string, query: Option<string>, versions: seq<Version>, parse: Parser, describe: Printer)
    requires AvailableVersions(query, parse) == Returned(versions) && |versions| > 0
    requires parse("2.0.0") == Some(Version(2, 0, 0))
    ensures TableValues(Foo(owner), query, parse, describe) ==
      Returned([Plain("Foo"),
        if Less(Version(2, 0, 0), Last(versions)) then Marked("1.0.0..<2.0.0") else Plain("1.0.0..<2.0.0"),
        Plain(describe(Last(versions)))])
  {
    FooName(owner);
    FooRangeText();
  }

  /** Tags v1.5.0, v2.5.0 and not-a-version: the versions are 1.5.0 and
      2.5.0, the range's upper bound 2.0.0 is below the last of them, so
      the requirement is shown marked and the latest version is 2.5.0. */
  lemma OutdatedRangeScenario(owner: string, header: string, objectName: string, parse: Parser, describe: Printer)
    requires PlainHeader(header) && PlainObjectName(objectName)
    requires KnowsScenarioVersions(parse, describe)
    ensures AvailableVersions(Some(Listing(header, objectName, ALL_TAGS)), parse) ==
      Returned([Version(1, 5, 0), Version(2, 5, 0)])
    ensures TableValues(Foo(owner), Some(Listing(header, objectName, ALL_TAGS)), parse, describe) ==
      Returned([Plain("Foo"), Marked("1.0.0..<2.0.0"), Plain("2.5.0")])
  {
    AllTagsArePlain();
    ListedVersionsOfRemote(header, objectName, ALL_TAGS, parse);
    AllTagVersions(parse, describe);
    RangeRow(owner, Some(Listing(header, objectName, ALL_TAGS)), [Version(1, 5, 0), Version(2, 5, 0)], parse, describe);
  }

  /** Only the tag v1.5.0: 1.5.0 is below the upper bound, so the
      requirement is shown unmarked, with 1.5.0 as the latest version. */
  lemma CurrentRangeScenario(owner: string, header: string, objectName: string, parse: Parser, describe: Printer)
    requires PlainHeader(header) && PlainObjectName(objectName)
    requires KnowsScenarioVersions(parse, describe)
    ensures TableValues(Foo(owner), Some(Listing(header, objectName, ["v1.5.0"])), parse, describe) ==
      Returned([Plain("Foo"), Plain("1.0.0..<2.0.0"), Plain("1.5.0")])
  {
    TagCharacters();
    assert ALL_TAGS[0] == "v1.5.0";
    PlainTagOf("v1.5.0");
    ListedVersionsOfRemote(header, objectName, ["v1.5.0"], parse);
    OldTagVersions(parse, describe);
    RangeRow(owner, Some(Listing(header, objectName, ["v1.5.0"])), [Version(1, 5, 0)], parse, describe);
  }

  /** Pinned to the branch "main", the requirement is never marked. */
  lemma BranchScenario(owner: string, query: Option<string>, parse: Parser, describe: Printer)
    ensures TableValues(Dependency(Foo(owner).url, Branch("main")), query, parse, describe).Returned? ==>
      TableValues(Dependency(Foo(owner).url, Branch("main")), query, parse, describe).value[1] == Plain("main")
  {
    UnversionedRowNeverMarked(Dependency(Foo(owner).url, Branch("main")), query, parse, describe);
  }

  /** Without a checkout to list, the row shows "n/a" as the latest version
      and the requirement unmarked. */
  lemma MissingCheckoutScenario(owner: string, parse: Parser, describe: Printer)
    ensures TableValues(Foo(owner), None, parse, describe) ==
      Returned([Plain("Foo"), Plain("1.0.0..<2.0.0"), Plain("n/a")])
  {
    FooName(owner);
    FooRangeText();
    FailedQueryRow(Foo(owner), parse, describe);
  }
}
