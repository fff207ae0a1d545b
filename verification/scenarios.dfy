/** Concrete inputs on which the model's result is proved, chosen to show
    where the generator's behaviour differs from what a reader might expect. */
module Scenarios {
  import Text
  import Names
  import PathMatch
  import Seqs
  import Sorting
  import Generator
  import opened Resource

  lemma NotPrefix(c: char, s: string)
    requires |s| > 0 && s[0] != c
    ensures !([c] <= s)
  {
    assert [c][0] != s[0];
  }

  lemma StripBraceOnlyExample()
    ensures Names.StripBraces("{}") == ""
  {
    assert "{}"[1..] == "}";
    assert "}"[1..] == "";
    assert Text.ReplaceAll("", "{", "") == "";
    assert "{"[0] != "}"[0];
    assert !("{" <= "}");
    assert Text.ReplaceAll("}", "{", "") == "}";
    assert Text.ReplaceAll("{}", "{", "") == "}";
  }

  lemma SegmentsBraceExample()
    ensures Names.Segments("/{}/a") == ["{}", "a"]
  {
    assert Text.Split("", '/') == [""];
    assert "a"[1..] == "";
    assert [""][1..] == [] && ['a'] + "" == "a";
    assert Text.Split("a", '/') == ["a"];
    assert "/a"[1..] == "a";
    assert Text.Split("/a", '/') == ["", "a"];
    assert "}/a"[1..] == "/a";
    assert ["", "a"][1..] == ["a"] && ['}'] + "" == "}";
    assert Text.Split("}/a", '/') == ["}", "a"];
    assert "{}/a"[1..] == "}/a";
    assert ["}", "a"][1..] == ["a"] && ['{'] + "}" == "{}";
    assert Text.Split("{}/a", '/') == ["{}", "a"];
    assert "/{}/a"[1..] == "{}/a";
    assert Text.Split("/{}/a", '/') == ["", "{}", "a"];
    assert ["", "{}", "a"][1..] == ["{}", "a"];
    assert ["{}", "a"][1..] == ["a"];
    assert ["a"][1..] == [];
  }

  lemma AppendBraceExample()
    ensures Names.AppendHyphens(["{}", "a"]) == "-a-"
  {
    StripBraceOnlyExample();
    StripPlainExamples();
    var segs: seq<string> := ["{}", "a"];
    assert segs[1..] == ["a"];
    assert ["a"][1..] == [];
    var tail := Names.AppendHyphens(["a"]);
    assert tail == "a" + "-" + "";
    assert Names.AppendHyphens(segs) == "" + "-" + tail;
  }

  lemma TrimLowerBraceExample()
    ensures Text.ToLowerAscii(Text.TrimSuffix("-a-", "-")) == "-a"
  {
    assert Text.TrimSuffix("-a-", "-") == "-a";
    var r := Text.ToLowerAscii("-a");
    assert r[0] == '-' && r[1] == 'a';
  }

  /** A segment that is only braces leaves an empty piece, so the name starts
      with a hyphen. */
  lemma NameWithLeadingHyphen()
    ensures Names.DeriveName("/{}/a") == "-a"
  {
    SegmentsBraceExample();
    AppendBraceExample();
    TrimLowerBraceExample();
  }

  lemma SegmentsTrailingBraceExample()
    ensures Names.Segments("/a/{}") == ["a", "{}"]
  {
    assert Text.Split("", '/') == [""];
    assert "}"[1..] == "";
    assert [""][1..] == [] && ['}'] + "" == "}";
    assert Text.Split("}", '/') == ["}"];
    assert "{}"[1..] == "}";
    assert ["}"][1..] == [] && ['{'] + "}" == "{}";
    assert Text.Split("{}", '/') == ["{}"];
    assert "/{}"[1..] == "{}";
    assert Text.Split("/{}", '/') == ["", "{}"];
    assert "a/{}"[1..] == "/{}";
    assert ["", "{}"][1..] == ["{}"] && ['a'] + "" == "a";
    assert Text.Split("a/{}", '/') == ["a", "{}"];
    assert "/a/{}"[1..] == "a/{}";
    assert Text.Split("/a/{}", '/') == ["", "a", "{}"];
    assert ["", "a", "{}"][1..] == ["a", "{}"];
    assert ["a", "{}"][1..] == ["{}"];
    assert ["{}"][1..] == [];
  }

  lemma AppendTrailingBraceExample()
    ensures Names.AppendHyphens(["a", "{}"]) == "a--"
  {
    StripBraceOnlyExample();
    StripPlainExamples();
    var segs: seq<string> := ["a", "{}"];
    assert segs[1..] == ["{}"];
    assert ["{}"][1..] == [];
    var tail := Names.AppendHyphens(["{}"]);
    assert tail == "" + "-" + "";
    assert Names.AppendHyphens(segs) == "a" + "-" + tail;
  }

  /** `TrimSuffix` removes one hyphen only, so a path ending in a segment that
      is only braces gives a name ending in a hyphen. */
  lemma NameWithTrailingHyphen()
    ensures Names.DeriveName("/a/{}") == "a-"
  {
    SegmentsTrailingBraceExample();
    AppendTrailingBraceExample();
    assert Text.TrimSuffix("a--", "-") == "a-";
    var r := Text.ToLowerAscii("a-");
    assert r[0] == 'a' && r[1] == '-';
  }

  /** A path of slashes only has no segments and gives the empty name. */
  lemma EmptyName()
    ensures Names.DeriveName("//") == ""
  {
    assert Text.Split("", '/') == [""];
    assert "/"[1..] == "";
    assert Text.Split("/", '/') == ["", ""];
    assert "//"[1..] == "/";
    assert Text.Split("//", '/') == ["", "", ""];
    assert Names.Segments("//") == [];
  }

  lemma SegmentsNestedExample()
    ensures Names.Segments("/a/b") == ["a", "b"]
  {
    assert "b"[1..] == "";
    assert [""][1..] == [] && ['b'] + "" == "b";
    assert Text.Split("b", '/') == ["b"];
    assert "/b"[1..] == "b";
    assert Text.Split("/b", '/') == ["", "b"];
    assert "a/b"[1..] == "/b";
    assert ["", "b"][1..] == ["b"] && ['a'] + "" == "a";
    assert Text.Split("a/b", '/') == ["a", "b"];
    assert "/a/b"[1..] == "a/b";
    assert Text.Split("/a/b", '/') == ["", "a", "b"];
    assert ["", "a", "b"][1..] == ["a", "b"];
    assert ["a", "b"][1..] == ["b"];
    assert ["b"][1..] == [];
  }

  lemma SegmentsHyphenExample()
    ensures Names.Segments("/a-b") == ["a-b"]
  {
    assert "b"[1..] == "";
    assert [""][1..] == [] && ['b'] + "" == "b";
    assert Text.Split("b", '/') == ["b"];
    assert "-b"[1..] == "b";
    assert ['-'] + "b" == "-b";
    assert Text.Split("-b", '/') == ["-b"];
    assert "a-b"[1..] == "-b";
    assert ['a'] + "-b" == "a-b";
    assert Text.Split("a-b", '/') == ["a-b"];
    assert "/a-b"[1..] == "a-b";
    assert Text.Split("/a-b", '/') == ["", "a-b"];
    assert ["", "a-b"][1..] == ["a-b"];
    assert ["a-b"][1..] == [];
  }

  lemma StripPlainExamples()
    ensures Names.StripBraces("a") == "a"
    ensures Names.StripBraces("b") == "b"
    ensures Names.StripBraces("a-b") == "a-b"
  {
    assert Text.ReplaceAll("", "{", "") == "";
    assert Text.ReplaceAll("", "}", "") == "";
    assert "a"[1..] == "" && "b"[1..] == "" && "-b"[1..] == "b" && "a-b"[1..] == "-b";
    NotPrefix('{', "b");
    NotPrefix('}', "b");
    NotPrefix('{', "a");
    NotPrefix('}', "a");
    NotPrefix('{', "-b");
    NotPrefix('}', "-b");
    NotPrefix('{', "a-b");
    NotPrefix('}', "a-b");
    assert Text.ReplaceAll("b", "{", "") == "b";
    assert Text.ReplaceAll("b", "}", "") == "b";
    assert Text.ReplaceAll("a", "{", "") == "a";
    assert Text.ReplaceAll("a", "}", "") == "a";
    assert Text.ReplaceAll("-b", "{", "") == "-b";
    assert Text.ReplaceAll("-b", "}", "") == "-b";
    assert Text.ReplaceAll("a-b", "{", "") == "a-b";
    assert Text.ReplaceAll("a-b", "}", "") == "a-b";
  }

  lemma AppendCollisionExample()
    ensures Names.AppendHyphens(["a", "b"]) == "a-b-"
    ensures Names.AppendHyphens(["a-b"]) == "a-b-"
  {
    StripPlainExamples();
    assert ["a", "b"][1..] == ["b"];
    assert ["b"][1..] == [] && ["a-b"][1..] == [];
    assert Names.AppendHyphens(["b"]) == "b" + "-" + "";
    assert Names.AppendHyphens(["a", "b"]) == "a" + "-" + "b-";
    assert Names.AppendHyphens(["a-b"]) == "a-b" + "-" + "";
  }

  lemma TrimLowerCollisionExample()
    ensures Text.ToLowerAscii(Text.TrimSuffix("a-b-", "-")) == "a-b"
  {
    assert Text.TrimSuffix("a-b-", "-") == "a-b";
    var r := Text.ToLowerAscii("a-b");
    assert r[0] == 'a' && r[1] == '-' && r[2] == 'b';
  }

  lemma NestedName()
    ensures Names.DeriveName("/a/b") == "a-b"
  {
    SegmentsNestedExample();
    AppendCollisionExample();
    TrimLowerCollisionExample();
  }

  lemma HyphenName()
    ensures Names.DeriveName("/a-b") == "a-b"
  {
    SegmentsHyphenExample();
    AppendCollisionExample();
    TrimLowerCollisionExample();
  }

  /** Different paths can derive the same name. */
  lemma NamesCollide()
    ensures "/a/b" != "/a-b"
    ensures Names.DeriveName("/a/b") == Names.DeriveName("/a-b")
  {
    NestedName();
    HyphenName();
  }

  /** The `//` pass runs once, so a run of three slashes still leaves `//`. */
  lemma CollapseIsSinglePass()
    ensures PathMatch.Collapse("///x") == "//x"
  {
    assert Text.ReplaceAll("", "//", "/") == "";
    assert "x"[1..] == "";
    assert Text.ReplaceAll("x", "//", "/") == "x";
    assert "/x"[1..] == "x";
    assert Text.ReplaceAll("/x", "//", "/") == "/x";
    assert "///x"[2..] == "/x";
    assert "//" <= "///x";
  }

  lemma SegmentsPets()
    ensures Names.Segments("/pets") == ["pets"]
  {
    assert "s"[1..] == "";
    assert Text.Split("", '/') == [""];
    assert [""][1..] == [] && ['s'] + "" == "s";
    assert Text.Split("s", '/') == ["s"];
    assert "ts"[1..] == "s" && ['t'] + "s" == "ts";
    assert Text.Split("ts", '/') == ["ts"];
    assert "ets"[1..] == "ts" && ['e'] + "ts" == "ets";
    assert Text.Split("ets", '/') == ["ets"];
    assert "pets"[1..] == "ets" && ['p'] + "ets" == "pets";
    assert Text.Split("pets", '/') == ["pets"];
    assert "/pets"[1..] == "pets";
    assert Text.Split("/pets", '/') == ["", "pets"];
    assert ["", "pets"][1..] == ["pets"];
    assert ["pets"][1..] == [];
  }

  lemma StripPets()
    ensures Names.StripBraces("pets") == "pets"
  {
    assert "pets"[1..] == "ets" && "ets"[1..] == "ts" && "ts"[1..] == "s" && "s"[1..] == "";
    assert !Text.Occurs("{", "pets") by {
      assert "{"[0] != "pets"[0] && "{"[0] != "ets"[0] && "{"[0] != "ts"[0] && "{"[0] != "s"[0];
    }
    assert !Text.Occurs("}", "pets") by {
      assert "}"[0] != "pets"[0] && "}"[0] != "ets"[0] && "}"[0] != "ts"[0] && "}"[0] != "s"[0];
    }
  }

  lemma AppendPets()
    ensures Names.AppendHyphens(["pets"]) == "pets-"
  {
    StripPets();
    assert ["pets"][1..] == [];
    assert Names.AppendHyphens(["pets"]) == "pets" + "-" + "";
  }

  lemma TrimLowerPets()
    ensures Text.ToLowerAscii(Text.TrimSuffix("pets-", "-")) == "pets"
  {
    assert Text.TrimSuffix("pets-", "-") == "pets";
    var r := Text.ToLowerAscii("pets");
    assert r[0] == 'p' && r[1] == 'e' && r[2] == 't' && r[3] == 's';
  }

  lemma PetsName(path: string)
    requires path == "/pets"
    ensures Names.DeriveName(path) == "pets"
  {
    SegmentsPets();
    AppendPets();
    TrimLowerPets();
  }

  lemma RootAfterPets(service: string)
    ensures !Text.Less(service + "-root", service + "-pets")
  {
    assert "-root"[1..] == "root" && "-pets"[1..] == "pets";
    Text.LessSharedPrefix(service, "-root", "-pets");
  }

  /** Per-path overrides that disable only `/admin`. */
  function AdminDisabled(o: Options, p: string): bool {
    p == "/admin"
  }

  const ExamplePaths: seq<string> := ["/", "/pets", "/admin"]

  lemma EnabledExample(opts: Options)
    ensures Generator.Enabled(opts, ExamplePaths, AdminDisabled) == ["/", "/pets"]
  {
    var f := Generator.IsEnabled(opts, AdminDisabled);
    assert "/pets"[1] != "/admin"[1] && |"/"| != |"/admin"|;
    assert AdminDisabled(opts, "/admin") && !AdminDisabled(opts, "/pets") && !AdminDisabled(opts, "/");
    assert f("/admin") == !AdminDisabled(opts, "/admin");
    assert f("/pets") == !AdminDisabled(opts, "/pets");
    assert f("/") == !AdminDisabled(opts, "/");
    var p3: seq<string> := ["/admin"];
    assert p3[1..] == [];
    assert Seqs.Filter(f, p3) == [] + Seqs.Filter(f, []);
    var p2: seq<string> := ["/pets", "/admin"];
    assert p2[1..] == p3;
    assert Seqs.Filter(f, p2) == ["/pets"] + Seqs.Filter(f, p3);
    assert ExamplePaths[1..] == p2;
    assert Seqs.Filter(f, ExamplePaths) == ["/"] + Seqs.Filter(f, p2);
  }

  lemma MapExample(opts: Options)
    ensures Seqs.Map(Generator.ResourceMaker(opts), ["/", "/pets"])
         == [Generator.ResourceFor(opts, "/"), Generator.ResourceFor(opts, "/pets")]
  {
    var mk := Generator.ResourceMaker(opts);
    var un := Seqs.Map(mk, ["/", "/pets"]);
    assert un[0] == mk("/");
    assert un[1] == mk("/pets");
  }

  lemma ResourceNameIs(opts: Options, path: string, name: string)
    requires Names.DeriveName(path) == name
    ensures Generator.ResourceFor(opts, path).name == opts.service.name + "-" + name
  {
  }

  lemma UnsortedResources(opts: Options)
    ensures Generator.Unsorted(opts, ExamplePaths, AdminDisabled)
         == [Generator.ResourceFor(opts, "/"), Generator.ResourceFor(opts, "/pets")]
  {
    EnabledExample(opts);
    MapExample(opts);
  }

  lemma NamesOfPair(a: Ingress, b: Ingress)
    ensures Sorting.Names([a, b]) == [a.name, b.name]
  {
  }

  lemma UnsortedNames(opts: Options)
    ensures Sorting.Names(Generator.Unsorted(opts, ExamplePaths, AdminDisabled))
         == [Generator.ResourceFor(opts, "/").name, Generator.ResourceFor(opts, "/pets").name]
  {
    UnsortedResources(opts);
    NamesOfPair(Generator.ResourceFor(opts, "/"), Generator.ResourceFor(opts, "/pets"));
  }

  lemma RootResourceName(opts: Options)
    ensures Generator.ResourceFor(opts, "/").name == opts.service.name + "-root"
  {
    ResourceNameIs(opts, "/", "root");
  }

  lemma PetsResourceName(opts: Options, path: string)
    requires path == "/pets"
    ensures Generator.ResourceFor(opts, path).name == opts.service.name + "-pets"
  {
    PetsName(path);
    ResourceNameIs(opts, path, "pets");
  }

  lemma UnsortedExample(opts: Options)
    ensures Sorting.Names(Generator.Unsorted(opts, ExamplePaths, AdminDisabled))
         == [opts.service.name + "-root", opts.service.name + "-pets"]
  {
    UnsortedNames(opts);
    RootResourceName(opts);
    PetsResourceName(opts, "/pets");
  }

  /** A sorted arrangement of two Ingresses whose names are out of order
      swaps them. */
  lemma SortedPairSwaps(rs: seq<Ingress>, un: seq<Ingress>)
    requires |un| == 2 && !Text.Less(un[0].name, un[1].name)
    requires Sorting.SortedByName(rs) && multiset(rs) == multiset(un)
    ensures Sorting.Names(rs) == [un[1].name, un[0].name]
  {
    var sorted := [un[1], un[0]];
    assert Sorting.SortedByName(sorted);
    assert un == [un[0], un[1]];
    assert multiset(sorted) == multiset(un);
    Sorting.SortedArrangementsAgree(rs, sorted);
    NamesOfPair(un[1], un[0]);
  }

  lemma ExampleSplits(opts: Options)
    ensures Generator.ShouldSplit(opts, ExamplePaths, AdminDisabled)
  {
    assert AdminDisabled(opts, ExamplePaths[2]);
  }

  /** A disabled path forces split mode; it gets no Ingress and the others are
      ordered by name. */
  lemma SplitWithDisabledPath(opts: Options)
    ensures Generator.ShouldSplit(opts, ExamplePaths, AdminDisabled)
    ensures Sorting.Names(Generator.SplitResources(opts, ExamplePaths, AdminDisabled))
         == [opts.service.name + "-pets", opts.service.name + "-root"]
  {
    ExampleSplits(opts);
    var un := Generator.Unsorted(opts, ExamplePaths, AdminDisabled);
    UnsortedExample(opts);
    assert un[0].name == Sorting.Names(un)[0] && un[1].name == Sorting.Names(un)[1];
    RootAfterPets(opts.service.name);
    SortedPairSwaps(Generator.SplitResources(opts, ExamplePaths, AdminDisabled), un);
  }

  lemma VarMatch()
    ensures PathMatch.MatchLen("{id}") == 4
  {
    assert "{id}"[1..] == "id}";
    assert "id}"[1..] == "d}" && "d}"[1..] == "}";
    assert PathMatch.RunLen("}") == 0;
    assert PathMatch.RunLen("d}") == 1;
    assert PathMatch.RunLen("id}") == 2;
  }
  lemma ReplaceExample()
    ensures PathMatch.ReplaceVars("/{id}") == "/([A-z0-9]+)"
    ensures PathMatch.ContainsVar("/{id}")
  {
    VarMatch();
    assert "/{id}"[1..] == "{id}";
    assert "{id}"[4..] == "";
    assert PathMatch.ReplaceVars("{id}") == PathMatch.Wildcard + "";
    assert PathMatch.MatchLen("/{id}") == 0;
  }
  /** A path variable is replaced by the capturing pattern after the base. */
  lemma RawExample(base: string)
    ensures PathMatch.RawPathField(base, "/{id}") == base + "/([A-z0-9]+)"
  {
    ReplaceExample();
  }
}
