/** `Generate`, `shouldSplit` and `splitPath`: the choice between one
    consolidated Ingress and one Ingress per enabled path, and the assembly of
    the result.

    External collaborators are parameters: `validate` fills in defaults and
    validates the options, `disabled` is the per-path override check, and
    `marshal` is the YAML serializer. The paths of the OpenAPI document come
    as a sequence in arbitrary order. */
module Generator {
  import opened Results
  import opened Resource
  import Seqs
  import Names
  import PathMatch
  import Sorting
  import Output

  /** True when some path of the document is disabled. */
  function AnyDisabled(opts: Options, paths: seq<string>, disabled: (Options, string) -> bool): (b: bool)
    ensures b <==> exists i :: 0 <= i < |paths| && disabled(opts, paths[i])
    decreases |paths|
  {
    if |paths| == 0 then false
    else if disabled(opts, paths[0]) then true
    else
      assert forall i :: 1 <= i < |paths| ==> paths[i] == paths[1..][i - 1];
      AnyDisabled(opts, paths[1..], disabled)
  }

  /** `shouldSplit`: split mode is forced by the option or by any disabled path. */
  function ShouldSplit(opts: Options, paths: seq<string>, disabled: (Options, string) -> bool): (b: bool)
    ensures b <==> opts.split || exists i :: 0 <= i < |paths| && disabled(opts, paths[i])
  {
    opts.split || AnyDisabled(opts, paths, disabled)
  }

  function IsEnabled(opts: Options, disabled: (Options, string) -> bool): string -> bool {
    p => !disabled(opts, p)
  }

  /** The paths that are not disabled, in input order. */
  function Enabled(opts: Options, paths: seq<string>, disabled: (Options, string) -> bool): seq<string> {
    Seqs.Filter(IsEnabled(opts, disabled), paths)
  }

  /** The split-mode Ingress of one path: named after the service and the path,
      matched exactly on the collapsed path field. */
  function ResourceFor(opts: Options, path: string): (r: Ingress)
    ensures r.name == opts.service.name + "-" + Names.DeriveName(path)
    ensures SingleRoute(r) && Route(r).pathType == Exact
    ensures Route(r).path == PathMatch.PathField(opts.base, path)
    ensures r.namespace == opts.namespace && r.rules[0].host == opts.host
    ensures r.ingressClassName == opts.ingressClass
    ensures Route(r).backend == Backend(opts.service.name, opts.service.port)
  {
    NewIngressResource(
      opts.service.name + "-" + Names.DeriveName(path),
      opts.namespace,
      PathMatch.PathField(opts.base, path),
      Exact,
      opts.service,
      opts.host,
      opts.ingressClass)
  }

  function ResourceMaker(opts: Options): string -> Ingress {
    p => ResourceFor(opts, p)
  }

  /** The split-mode Ingresses in the order the paths were visited. */
  function Unsorted(opts: Options, paths: seq<string>, disabled: (Options, string) -> bool): seq<Ingress> {
    Seqs.Map(ResourceMaker(opts), Enabled(opts, paths, disabled))
  }

  /** The list `splitPath` hands to `buildOutput`: a name-sorted permutation of
      the Ingresses of the enabled paths. */
  function SplitResources(opts: Options, paths: seq<string>, disabled: (Options, string) -> bool): (rs: seq<Ingress>)
    ensures Sorting.SortedByName(rs)
    ensures multiset(rs) == multiset(Unsorted(opts, paths, disabled))
  {
    Sorting.SortByName(Unsorted(opts, paths, disabled))
  }

  /** One Ingress per enabled path and none from a disabled one. */
  lemma SplitResourcesExactlyEnabled(opts: Options, paths: seq<string>, disabled: (Options, string) -> bool)
    ensures |SplitResources(opts, paths, disabled)| == |Enabled(opts, paths, disabled)|
    ensures forall p :: p in paths && !disabled(opts, p) ==> ResourceFor(opts, p) in SplitResources(opts, paths, disabled)
    ensures forall r :: r in SplitResources(opts, paths, disabled) ==>
      exists p :: p in paths && !disabled(opts, p) && r == ResourceFor(opts, p)
  {
    var rs := SplitResources(opts, paths, disabled);
    var en := Enabled(opts, paths, disabled);
    var un := Unsorted(opts, paths, disabled);
    assert |rs| == |multiset(rs)| == |multiset(un)| == |un|;
    forall p | p in paths && !disabled(opts, p)
      ensures ResourceFor(opts, p) in rs
    {
      assert IsEnabled(opts, disabled)(p);
      var k :| 0 <= k < |en| && en[k] == p;
      assert un[k] == ResourceFor(opts, p);
      assert un[k] in multiset(un);
    }
    forall r | r in rs
      ensures exists p :: p in paths && !disabled(opts, p) && r == ResourceFor(opts, p)
    {
      assert r in multiset(un);
      var k :| 0 <= k < |un| && un[k] == r;
      assert en[k] in en;
      assert IsEnabled(opts, disabled)(en[k]);
      assert r == ResourceFor(opts, en[k]);
    }
  }

  /** `splitPath`: the output of some name-sorted arrangement of the enabled
      paths' Ingresses. */
  function SplitPath(
    opts: Options, paths: seq<string>,
    disabled: (Options, string) -> bool,
    marshal: Ingress -> Result<string, string>): (r: Result<string, GenError>)
    ensures exists rs ::
              && Sorting.SortedByName(rs)
              && multiset(rs) == multiset(Unsorted(opts, paths, disabled))
              && r == Output.BuildOutput(rs, marshal)
  {
    var rs := SplitResources(opts, paths, disabled);
    assert Sorting.SortedByName(rs) && multiset(rs) == multiset(Unsorted(opts, paths, disabled));
    Output.BuildOutput(rs, marshal)
  }

  /** Split mode fails exactly when the Ingress of some enabled path cannot be
      marshalled. */
  lemma SplitPathOkIffAllMarshal(opts: Options, paths: seq<string>, disabled: (Options, string) -> bool,
    marshal: Ingress -> Result<string, string>)
    ensures SplitPath(opts, paths, disabled, marshal).Ok? <==>
      forall p :: p in paths && !disabled(opts, p) ==> marshal(ResourceFor(opts, p)).Ok?
  {
    var rs := SplitResources(opts, paths, disabled);
    SplitResourcesExactlyEnabled(opts, paths, disabled);
    if SplitPath(opts, paths, disabled, marshal).Ok? {
      forall p | p in paths && !disabled(opts, p)
        ensures marshal(ResourceFor(opts, p)).Ok?
      {
        var k :| 0 <= k < |rs| && rs[k] == ResourceFor(opts, p);
      }
    } else if forall p :: p in paths && !disabled(opts, p) ==> marshal(ResourceFor(opts, p)).Ok? {
      forall k | 0 <= k < |rs|
        ensures marshal(rs[k]).Ok?
      {
        assert rs[k] in rs;
      }
    }
  }

  /** The single Ingress of consolidated mode. */
  function Consolidated(opts: Options): (r: Ingress)
    ensures r.name == opts.service.name + "-ingress"
    ensures SingleRoute(r) && Route(r).pathType == Prefix && Route(r).path == opts.base
    ensures r.namespace == opts.namespace && r.rules[0].host == opts.host
    ensures r.ingressClassName == opts.ingressClass
    ensures Route(r).backend == Backend(opts.service.name, opts.service.port)
  {
    NewIngressResource(
      opts.service.name + "-ingress",
      opts.namespace,
      opts.base,
      Prefix,
      opts.service,
      opts.host,
      opts.ingressClass)
  }

  /** `Generate`. */
  function Generate(
    opts: Options, paths: seq<string>,
    validate: Options -> Result<Options, string>,
    disabled: (Options, string) -> bool,
    marshal: Ingress -> Result<string, string>): (r: Result<string, GenError>)
    ensures validate(opts).Err? ==> r == Err(InvalidOptions(validate(opts).error))
  {
    match validate(opts)
    case Err(e) => Err(InvalidOptions(e))
    case Ok(o) =>
      if ShouldSplit(o, paths, disabled) then SplitPath(o, paths, disabled, marshal)
      else
        match marshal(Consolidated(o))
        case Err(e) => Err(MarshalFailed(e))
        case Ok(doc) => Ok(doc)
  }

  /** Consolidated mode: neither forced nor triggered by a disabled path, the
      output is exactly the serialized `<service>-ingress` Prefix Ingress on the
      base path, without any separator. */
  lemma GenerateConsolidated(
    opts: Options, paths: seq<string>,
    validate: Options -> Result<Options, string>,
    disabled: (Options, string) -> bool,
    marshal: Ingress -> Result<string, string>)
    requires validate(opts).Ok?
    requires !validate(opts).value.split
    requires forall p :: p in paths ==> !disabled(validate(opts).value, p)
    ensures var o := validate(opts).value;
      var x := Consolidated(o);
      && x.name == o.service.name + "-ingress"
      && Route(x).pathType == Prefix && Route(x).path == o.base
      && Generate(opts, paths, validate, disabled, marshal) ==
         (if marshal(x).Ok? then Ok(marshal(x).value) else Err(MarshalFailed(marshal(x).error)))
  {
  }

  /** Split mode: the output is the document sequence of a name-sorted
      arrangement of exactly the enabled paths' Ingresses. */
  lemma GenerateSplit(
    opts: Options, paths: seq<string>,
    validate: Options -> Result<Options, string>,
    disabled: (Options, string) -> bool,
    marshal: Ingress -> Result<string, string>)
    requires validate(opts).Ok?
    requires validate(opts).value.split || exists p :: p in paths && disabled(validate(opts).value, p)
    ensures var o := validate(opts).value;
      var rs := SplitResources(o, paths, disabled);
      && Generate(opts, paths, validate, disabled, marshal) == Output.BuildOutput(rs, marshal)
      && Sorting.SortedByName(rs)
      && multiset(rs) == multiset(Seqs.Map(ResourceMaker(o), Enabled(o, paths, disabled)))
  {
    var o := validate(opts).value;
    if !o.split {
      var p :| p in paths && disabled(o, p);
      var i :| 0 <= i < |paths| && paths[i] == p;
    }
  }

  /** Reordering the paths does not change the mode decision. */
  lemma ShouldSplitIgnoresPathOrder(opts: Options, paths: seq<string>, paths': seq<string>, disabled: (Options, string) -> bool)
    requires multiset(paths) == multiset(paths')
    ensures ShouldSplit(opts, paths, disabled) == ShouldSplit(opts, paths', disabled)
  {
    forall i | 0 <= i < |paths|
      ensures paths[i] in paths'
    {
      assert paths[i] in multiset(paths');
    }
    forall i | 0 <= i < |paths'|
      ensures paths'[i] in paths
    {
      assert paths'[i] in multiset(paths);
    }
    if AnyDisabled(opts, paths, disabled) {
      var i :| 0 <= i < |paths| && disabled(opts, paths[i]);
      var j :| 0 <= j < |paths'| && paths'[j] == paths[i];
    }
    if AnyDisabled(opts, paths', disabled) {
      var i :| 0 <= i < |paths'| && disabled(opts, paths'[i]);
      var j :| 0 <= j < |paths| && paths[j] == paths'[i];
    }
  }

  /** Reordering the paths leaves the sorted names unchanged, and the whole
      sorted list unchanged when the names are distinct. */
  lemma SplitResourcesIgnorePathOrder(opts: Options, paths: seq<string>, paths': seq<string>, disabled: (Options, string) -> bool)
    requires multiset(paths) == multiset(paths')
    ensures Sorting.Names(SplitResources(opts, paths, disabled)) == Sorting.Names(SplitResources(opts, paths', disabled))
    ensures Sorting.DistinctNames(SplitResources(opts, paths, disabled)) ==>
      SplitResources(opts, paths, disabled) == SplitResources(opts, paths', disabled)
  {
    var en, en' := Enabled(opts, paths, disabled), Enabled(opts, paths', disabled);
    Seqs.FilterPreservesPermutation(IsEnabled(opts, disabled), paths, paths');
    Seqs.MapPreservesPermutation(ResourceMaker(opts), en, en');
    Sorting.SortedArrangementsAgree(SplitResources(opts, paths, disabled), SplitResources(opts, paths', disabled));
  }

  /** The order in which the document lists its paths does not matter. In
      consolidated mode the paths are not read after the mode decision; in
      split mode the output is the same when the names are distinct. */
  lemma GenerateIgnoresPathOrder(
    opts: Options, paths: seq<string>, paths': seq<string>,
    validate: Options -> Result<Options, string>,
    disabled: (Options, string) -> bool,
    marshal: Ingress -> Result<string, string>)
    requires validate(opts).Ok?
    requires multiset(paths) == multiset(paths')
    requires ShouldSplit(validate(opts).value, paths, disabled) ==>
      Sorting.DistinctNames(SplitResources(validate(opts).value, paths, disabled))
    ensures Generate(opts, paths, validate, disabled, marshal) == Generate(opts, paths', validate, disabled, marshal)
  {
    var o := validate(opts).value;
    ShouldSplitIgnoresPathOrder(o, paths, paths', disabled);
    if ShouldSplit(o, paths, disabled) {
      SplitResourcesIgnorePathOrder(o, paths, paths', disabled);
    }
  }
}
