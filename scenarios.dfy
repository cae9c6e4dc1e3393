/** Concrete runs of the promotion, worked through the model. */
module ReleaseScenarios {
  import opened Outcomes
  import opened Versions
  import opened VersionSort
  import opened Registry

  lemma ThreeDecimals(a: nat, b: nat, c: nat)
    requires a < 10 && b < 10 && c < 10
    ensures Decimals([a, b, c]) == [[DigitChar(a)], [DigitChar(b)], [DigitChar(c)]]
  {
  }

  lemma JoinThree(sep: char, x: string, y: string, z: string)
    ensures JoinWith(sep, [x, y, z]) == x + [sep] + y + [sep] + z
  {
    assert [x, y, z][1..] == [y, z];
    assert [y, z][1..] == [z];
    assert JoinWith(sep, [y, z]) == y + [sep] + z;
  }

  lemma VersionString100()
    ensures VersionString([1, 0, 0]) == "1.0.0"
  {
    ThreeDecimals(1, 0, 0);
    JoinThree('.', "1", "0", "0");
  }

  lemma VersionString101()
    ensures VersionString([1, 0, 1]) == "1.0.1"
    ensures BranchName([1, 0, 1]) == "version_1_0_1"
  {
    ThreeDecimals(1, 0, 1);
    JoinThree('.', "1", "0", "1");
    JoinThree('_', "1", "0", "1");
  }

  lemma Parse100()
    ensures VersionToList("1.0.0") == Ok([1, 0, 0])
    ensures |Tokens("1.0.0")| == 3
  {
    VersionString100();
    VersionRoundTrip([1, 0, 0]);
    BranchNameTokens([1, 0, 0]);
  }

  lemma Parse101()
    ensures VersionToList("1.0.1") == Ok([1, 0, 1])
  {
    VersionString101();
    VersionRoundTrip([1, 0, 1]);
  }

  lemma DecorateTwo(a: string, b: string, u: seq<nat>, w: seq<nat>)
    requires VersionToList(a) == Ok(u) && VersionToList(b) == Ok(w)
    ensures Decorate([a, b]) == Ok([Keyed(u, a), Keyed(w, b)])
  {
    var first: seq<Keyed>, second: seq<Keyed> := [Keyed(u, a)], [Keyed(w, b)];
    assert [b][1..] == [] && Decorate([]) == Ok([]);
    DecorateFirst([b]);
    assert Decorate([b]) == Ok(second) by {
      assert second + [] == second;
    }
    assert [a, b][1..] == [b];
    DecorateFirst([a, b]);
    assert first + second == [Keyed(u, a), Keyed(w, b)];
  }

  lemma SortTwoAscending(x: Keyed, y: Keyed)
    requires Less(x.version, y.version)
    ensures SortAscending([x, y]) == [x, y]
  {
    LessAsymmetric(x.version, y.version);
    assert [x, y][1..] == [y];
    assert SortAscending([y]) == [y];
  }

  /** Two keys in ascending order come out swapped. */
  lemma ResortTwoAscending(a: string, b: string, u: seq<nat>, w: seq<nat>)
    requires VersionToList(a) == Ok(u) && VersionToList(b) == Ok(w) && Less(u, w)
    ensures SortByVersionDescending([a, b]) == Ok([b, a])
  {
    DecorateTwo(a, b, u, w);
    SortTwoAscending(Keyed(u, a), Keyed(w, b));
    assert Reverse([Keyed(u, a), Keyed(w, b)]) == [Keyed(w, b), Keyed(u, a)];
    assert Names([Keyed(w, b), Keyed(u, a)]) == [b, a];
  }

  /** Two keys that parse to the same version come out swapped. */
  lemma ResortTwoTied(a: string, b: string, v: seq<nat>)
    requires VersionToList(a) == Ok(v) && VersionToList(b) == Ok(v)
    ensures SortByVersionDescending([a, b]) == Ok([b, a])
  {
    ResortFlipsTies([a, b], v);
    assert Reverse([a, b]) == [b, a];
  }

  lemma TwoTiedDescend(a: string, b: string, v: seq<nat>)
    requires VersionToList(a) == Ok(v) && VersionToList(b) == Ok(v)
    ensures DescendingByVersion([a, b])
  {
    LessIrreflexive(v);
  }

  /**
   * A table holding only 1.0.0 with `latest` at 1.0.0, promoted with hash
   * "def": the new release 1.0.1 comes first, on branch version_1_0_1.
   */
  lemma PromoteFromOneRelease()
    ensures NextVersion("1.0.0") == Ok([1, 0, 1])
    ensures VersionString([1, 0, 1]) == "1.0.1"
    ensures BranchName([1, 0, 1]) == "version_1_0_1"
    ensures PromoteReleases(OrderedDict(["1.0.0"], map["1.0.0" := "abc"]), "1.0.1", "def")
            == Ok(OrderedDict(["1.0.1", "1.0.0"], map["1.0.0" := "abc", "1.0.1" := "def"]))
  {
    Parse100();
    Parse101();
    VersionString101();
    assert Bump([1, 0, 0]) == [1, 0, 1];
    var before := OrderedDict(["1.0.0"], map["1.0.0" := "abc"]);
    assert before.Valid();
    BumpIncreases([1, 0, 0]);
    ResortTwoAscending("1.0.0", "1.0.1", [1, 0, 0], [1, 0, 1]);
  }

  lemma ParseSuffixed()
    ensures VersionToList("1.0.0-a") == Ok([1, 0, 0])
    ensures VersionToList("1.0.0-b") == Ok([1, 0, 0])
  {
    Parse100();
    assert "1.0.0-a" == "1.0.0" + ['-'] + "a";
    assert "1.0.0-b" == "1.0.0" + ['-'] + "b";
    VersionIgnoresSuffix("1.0.0", '-', "a");
    VersionIgnoresSuffix("1.0.0", '-', "b");
  }

  /**
   * "1.0.0-a" and "1.0.0-b" both parse to [1, 0, 0]. Each order of the two
   * is non-increasing, yet re-sorting swaps them every time.
   */
  lemma ResortSwapsTiedReleases()
    ensures DescendingByVersion(["1.0.0-a", "1.0.0-b"]) && DescendingByVersion(["1.0.0-b", "1.0.0-a"])
    ensures SortByVersionDescending(["1.0.0-a", "1.0.0-b"]) == Ok(["1.0.0-b", "1.0.0-a"])
    ensures SortByVersionDescending(["1.0.0-b", "1.0.0-a"]) == Ok(["1.0.0-a", "1.0.0-b"])
  {
    ParseSuffixed();
    TwoTiedDescend("1.0.0-a", "1.0.0-b", [1, 0, 0]);
    TwoTiedDescend("1.0.0-b", "1.0.0-a", [1, 0, 0]);
    ResortTwoTied("1.0.0-a", "1.0.0-b", [1, 0, 0]);
    ResortTwoTied("1.0.0-b", "1.0.0-a", [1, 0, 0]);
  }
}
