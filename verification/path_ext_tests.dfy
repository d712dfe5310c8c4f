/** The examples of the `PathExt` documentation and the vectors of its unit
    tests, stated on the model. The tests run each vector on a `&str`, a `Path`
    and a `PathBuf`; all three are the one `FromStr` value here. */
module PathExtTests {
  import Strings
  import opened Components
  import opened PathExt

  /** The text of the `contains` and `starts_or_ends_with` tests. */
  const Somehow: string := "/opt/somewhere/someplace/somehow/"
  /** The text of the `has_component` test. */
  const Someplace: string := "/opt/somewhere/someplace/"

  lemma JoinTwo(a: string, b: string)
    ensures Join([a, b]) == a + [Separator] + b
  {
  }

  lemma JoinThree(a: string, b: string, c: string)
    ensures Join([a, b, c]) == a + [Separator] + b + [Separator] + c
  {
    assert [a, b, c][1..] == [b, c];
    JoinTwo(b, c);
  }

  lemma JoinFour(a: string, b: string, c: string, d: string)
    ensures Join([a, b, c, d]) == a + [Separator] + b + [Separator] + c + [Separator] + d
  {
    assert [a, b, c, d][1..] == [b, c, d];
    JoinThree(b, c, d);
  }

  lemma NormalNames(names: seq<string>)
    requires names == ["opt", "somewhere", "someplace"] || names == ["some", "path"]
    ensures forall n <- names :: IsNormal(n)
  {
  }

  lemma SplitAbsoluteText(s: string, names: seq<string>, trailing: bool)
    requires forall n <- names :: IsNormal(n)
    requires names != []
    requires s == [Separator] + Join(names) + (if trailing then [Separator] else [])
    ensures Split(s) == [Root] + names
  {
    SplitJoinAbsolute(names);
    if !trailing {
      assert s == [Separator] + Join(names);
    }
  }

  /** The components of the `has_component` test path. */
  lemma SomeplaceComponents()
    ensures FromStr(Someplace).components == [Root, "opt", "somewhere", "someplace"]
  {
    var names := ["opt", "somewhere", "someplace"];
    JoinThree("opt", "somewhere", "someplace");
    NormalNames(names);
    SplitAbsoluteText(Someplace, names, true);
  }

  /** Where the contained patterns of the `contains` test sit in `Somehow`. */
  lemma SomehowOpt()
    ensures Strings.OccursAt(Somehow, "/opt", 0) && Strings.OccursAt(Somehow, "opt", 1)
  {
  }

  lemma SomehowSomewhere()
    ensures Strings.OccursAt(Somehow, "somewhere", 5)
  {
    var tail := Somehow[5..];
    assert tail == "somewhere/someplace/somehow/";
    assert tail[..9] == "somewhere";
    assert Somehow[5..14] == tail[..9];
  }

  lemma SomehowTail()
    ensures Strings.OccursAt(Somehow, "/someplace/somehow", 14)
    ensures Strings.OccursAt(Somehow, "someplace/somehow/", 15)
  {
  }

  /** `Somehow` is the root, four names and a trailing separator. */
  lemma SomehowShape()
    ensures Somehow == [Separator] + Join(["opt", "somewhere", "someplace", "somehow"]) + [Separator]
  {
    JoinFour("opt", "somewhere", "someplace", "somehow");
  }

  lemma RootInNoName(names: seq<string>)
    requires names == ["opt", "somewhere", "someplace", "somehow"]
    ensures forall n <- names :: !Strings.IsSubstring("root", n)
  {
    forall n <- names ensures !Strings.IsSubstring("root", n) {
      if n == "somewhere" {
        Strings.MissingCharacter("root", n, 't');
      } else {
        Strings.MissingCharacter("root", n, 'r');
      }
    }
  }

  /** `"root"` is in none of the names of `Somehow` and cannot straddle a
      separator, so it is not in `Somehow`. */
  lemma NoRoot()
    ensures !Strings.IsSubstring("root", Somehow)
  {
    var names := ["opt", "somewhere", "someplace", "somehow"];
    SomehowShape();
    RootInNoName(names);
    if Strings.IsSubstring("root", Somehow) {
      Strings.Wrapped("root", Join(names), Separator);
      SeparatorFreeOccursInName(names, "root");
    }
  }

  lemma ContainsVectors()
    ensures Contains(FromStr(Somehow), "opt")
    ensures Contains(FromStr(Somehow), "/opt")
    ensures Contains(FromStr(Somehow), "somewhere")
    ensures Contains(FromStr(Somehow), "/someplace/somehow")
    ensures Contains(FromStr(Somehow), "someplace/somehow/")
    ensures !Contains(FromStr(Somehow), "root")
  {
    SomehowOpt();
    SomehowSomewhere();
    SomehowTail();
    NoRoot();
  }

  lemma HasComponentVectors()
    ensures HasComponent(FromStr(Someplace), "opt")
    ensures HasComponent(FromStr(Someplace), "somewhere")
    ensures !HasComponent(FromStr(Someplace), "someplace/")
    ensures !HasComponent(FromStr(Someplace), "root")
  {
    SomeplaceComponents();
    var cs := FromStr(Someplace).components;
    assert cs[1] == "opt" && cs[2] == "somewhere";
    SeparatorQueryIsNoComponent(Someplace, "someplace/");
  }

  lemma StartsOrEndsWithVectors()
    ensures !StartsOrEndsWith(FromStr(Somehow), "opt")
    ensures StartsOrEndsWith(FromStr(Somehow), "/opt")
    ensures !StartsOrEndsWith(FromStr(Somehow), "somewhere")
    ensures !StartsOrEndsWith(FromStr(Somehow), "someplace/somehow")
    ensures StartsOrEndsWith(FromStr(Somehow), "someplace/somehow/")
    ensures !StartsOrEndsWith(FromStr(Somehow), "root")
  {
    assert Somehow[..4] == "/opt";
    assert Somehow[15..] == "someplace/somehow/";
    Strings.DiffersAtBothEnds("opt", Somehow);
    Strings.DiffersAtBothEnds("somewhere", Somehow);
    Strings.DiffersAtBothEnds("someplace/somehow", Somehow);
    Strings.DiffersAtBothEnds("root", Somehow);
  }

  /** `contains` is looser than `starts_or_ends_with`: a name in the middle of
      the path is contained but neither starts nor ends it. */
  lemma ContainedButNotAtEitherEnd()
    ensures Contains(FromStr(Somehow), "opt") && !StartsOrEndsWith(FromStr(Somehow), "opt")
    ensures Contains(FromStr(Somehow), "somewhere") && !StartsOrEndsWith(FromStr(Somehow), "somewhere")
  {
    ContainsVectors();
    StartsOrEndsWithVectors();
  }

  /** `contains` is looser than `has_component`: a run of two names is in the
      text but is no single component. */
  lemma ContainedButNoComponent()
    ensures Contains(FromStr(Somehow), "/someplace/somehow")
    ensures !HasComponent(FromStr(Somehow), "/someplace/somehow")
  {
    ContainsVectors();
    SeparatorQueryIsNoComponent(Somehow, "/someplace/somehow");
  }

  /** The three assertions of the documentation example. */
  lemma DocExamples()
    ensures HasComponent(FromStr("/some/path"), "path")
    ensures Contains(FromStr("/some/path"), "some")
    ensures StartsOrEndsWith(FromStr("/this/and/that/"), "/")
  {
    var names := ["some", "path"];
    JoinTwo("some", "path");
    NormalNames(names);
    SplitAbsoluteText("/some/path", names, false);
    assert FromStr("/some/path").components[2] == "path";
    assert "/some/path"[1..5] == "some";
    assert Strings.OccursAt("/some/path", "some", 1);
    assert "/this/and/that/"[..1] == "/";
  }
}
